/**
 * The base64 encoding of section 4 of RFC 4648 (alphabet `A-Z a-z 0-9 + /`,
 * `=` padding): the encoder, and a strict decoder that accepts exactly the
 * canonical encodings (length a multiple of four, padding only at the end,
 * unused bits of the last group zero). The two are mutually inverse.
 */
module Base64 {
  import opened Wrappers

  type byte = x: int | 0 <= x < 256

  /** A six-bit group: the value one base64 character carries. */
  type sextet = x: int | 0 <= x < 64

  /** The character of the alphabet for value `v` (Table 1 of RFC 4648). */
  function CharOf(v: sextet): char {
    if v < 26 then ('A' as int + v) as char
    else if v < 52 then ('a' as int + (v - 26)) as char
    else if v < 62 then ('0' as int + (v - 52)) as char
    else if v == 62 then '+'
    else '/'
  }

  /** The value of an alphabet character; `None` for anything else, `=` included. */
  function ValueOf(c: char): Option<sextet> {
    if 'A' <= c <= 'Z' then Some(c as int - 'A' as int)
    else if 'a' <= c <= 'z' then Some(c as int - 'a' as int + 26)
    else if '0' <= c <= '9' then Some(c as int - '0' as int + 52)
    else if c == '+' then Some(62)
    else if c == '/' then Some(63)
    else None
  }

  lemma ValueOfCharOf(v: sextet)
    ensures ValueOf(CharOf(v)) == Some(v)
  {
  }

  lemma CharOfValueOf(c: char)
    requires ValueOf(c).Some?
    ensures CharOf(ValueOf(c).value) == c
  {
  }

  // ---------------------------------------------------------------------------
  // Encoding

  /** Three bytes as four characters: 24 bits cut into four sextets, most significant first. */
  function EncodeGroup(b0: byte, b1: byte, b2: byte): string {
    [CharOf(b0 / 4), CharOf((b0 % 4) * 16 + b1 / 16), CharOf((b1 % 16) * 4 + b2 / 64), CharOf(b2 % 64)]
  }

  /** The base64 text of `b`: whole groups, then one padded group for one or two leftover bytes. */
  function Encode(b: seq<byte>): (s: string)
    ensures |s| == 4 * ((|b| + 2) / 3)
    decreases |b|
  {
    if |b| == 0 then []
    else if |b| == 1 then [CharOf(b[0] / 4), CharOf((b[0] % 4) * 16), '=', '=']
    else if |b| == 2 then [CharOf(b[0] / 4), CharOf((b[0] % 4) * 16 + b[1] / 16), CharOf((b[1] % 16) * 4), '=']
    else EncodeGroup(b[0], b[1], b[2]) + Encode(b[3..])
  }

  /** A character base64 text may hold: an alphabet character or the pad `=`. */
  predicate IsBase64Char(c: char) {
    c == '=' || ValueOf(c).Some?
  }

  /** An alphabet character is a base64 character and never the pad. */
  lemma CharOfIsBase64(v: sextet)
    ensures IsBase64Char(CharOf(v)) && CharOf(v) != '='
  {
    ValueOfCharOf(v);
  }

  /** Every character of an encoding is an alphabet character or `=`. */
  lemma {:induction false} EncodeAlphabet(b: seq<byte>)
    ensures forall i :: 0 <= i < |Encode(b)| ==> IsBase64Char(Encode(b)[i])
    decreases |b|
  {
    if |b| == 1 {
      CharOfIsBase64(b[0] / 4);
      CharOfIsBase64((b[0] % 4) * 16);
    } else if |b| == 2 {
      CharOfIsBase64(b[0] / 4);
      CharOfIsBase64((b[0] % 4) * 16 + b[1] / 16);
      CharOfIsBase64((b[1] % 16) * 4);
    } else if |b| >= 3 {
      CharOfIsBase64(b[0] / 4);
      CharOfIsBase64((b[0] % 4) * 16 + b[1] / 16);
      CharOfIsBase64((b[1] % 16) * 4 + b[2] / 64);
      CharOfIsBase64(b[2] % 64);
      EncodeAlphabet(b[3..]);
      var g := EncodeGroup(b[0], b[1], b[2]);
      var rest := Encode(b[3..]);
      var s := Encode(b);
      assert s == g + rest;
      forall i | 0 <= i < |s| ensures IsBase64Char(s[i]) {
        if i >= 4 {
          assert s[i] == rest[i - 4];
        } else {
          assert s[i] == g[i];
        }
      }
    }
  }

  // ---------------------------------------------------------------------------
  // Strict decoding

  /** Four alphabet characters as three bytes. */
  function DecodeGroup(q: string): Option<seq<byte>>
    requires |q| == 4
  {
    match (ValueOf(q[0]), ValueOf(q[1]), ValueOf(q[2]), ValueOf(q[3]))
    case (Some(c0), Some(c1), Some(c2), Some(c3)) =>
      Some([c0 * 4 + c1 / 16, (c1 % 16) * 16 + c2 / 4, (c2 % 4) * 64 + c3])
    case _ => None
  }

  /** The final group, which may carry one or two `=`; the bits padding leaves unused must be zero. */
  function DecodeLast(q: string): Option<seq<byte>>
    requires |q| == 4
  {
    if q[2] == '=' && q[3] == '=' then
      match (ValueOf(q[0]), ValueOf(q[1]))
      case (Some(c0), Some(c1)) => if c1 % 16 == 0 then Some([c0 * 4 + c1 / 16]) else None
      case _ => None
    else if q[3] == '=' then
      match (ValueOf(q[0]), ValueOf(q[1]), ValueOf(q[2]))
      case (Some(c0), Some(c1), Some(c2)) =>
        if c2 % 4 == 0 then Some([c0 * 4 + c1 / 16, (c1 % 16) * 16 + c2 / 4]) else None
      case _ => None
    else DecodeGroup(q)
  }

  /** The bytes whose canonical base64 text is `s`; `None` when `s` is not canonical base64. */
  function Decode(s: string): Option<seq<byte>>
    decreases |s|
  {
    if |s| == 0 then Some([])
    else if |s| < 4 then None
    else if |s| == 4 then DecodeLast(s)
    else match DecodeGroup(s[..4])
      case None => None
      case Some(g) =>
        match Decode(s[4..])
        case None => None
        case Some(rest) => Some(g + rest)
  }

  // ---------------------------------------------------------------------------
  // Round trips

  /** The sextets of three bytes put back together give the bytes. */
  lemma GroupArith(b0: byte, b1: byte, b2: byte)
    ensures var c1 := (b0 % 4) * 16 + b1 / 16;
      var c2 := (b1 % 16) * 4 + b2 / 64;
      && 0 <= c1 < 64 && 0 <= c2 < 64
      && (b0 / 4) * 4 + c1 / 16 == b0
      && (c1 % 16) * 16 + c2 / 4 == b1
      && (c2 % 4) * 64 + b2 % 64 == b2
  {
  }

  /** Four sextets cut from the bytes they decode to give the sextets back. */
  lemma SextetArith(c0: sextet, c1: sextet, c2: sextet, c3: sextet)
    ensures var x0 := c0 * 4 + c1 / 16;
      var x1 := (c1 % 16) * 16 + c2 / 4;
      var x2 := (c2 % 4) * 64 + c3;
      && 0 <= x0 < 256 && 0 <= x1 < 256 && 0 <= x2 < 256
      && x0 / 4 == c0 && (x0 % 4) * 16 + x1 / 16 == c1
      && (x1 % 16) * 4 + x2 / 64 == c2 && x2 % 64 == c3
  {
  }

  lemma GroupRoundTrip(b0: byte, b1: byte, b2: byte)
    ensures DecodeGroup(EncodeGroup(b0, b1, b2)) == Some([b0, b1, b2])
  {
    GroupArith(b0, b1, b2);
    var c0: sextet, c1: sextet, c2: sextet, c3: sextet := b0 / 4, (b0 % 4) * 16 + b1 / 16, (b1 % 16) * 4 + b2 / 64, b2 % 64;
    ValueOfCharOf(c0);
    ValueOfCharOf(c1);
    ValueOfCharOf(c2);
    ValueOfCharOf(c3);
    var q := EncodeGroup(b0, b1, b2);
    assert q == [CharOf(c0), CharOf(c1), CharOf(c2), CharOf(c3)];
  }

  /** A group with no pad decodes on its own as a whole group. */
  lemma DecodeWholeGroup(q: string)
    requires |q| == 4 && q[2] != '=' && q[3] != '='
    ensures Decode(q) == DecodeGroup(q)
  {
  }

  /** A whole group followed by more text decodes group by group. */
  lemma DecodeCons(g: string, rest: string)
    requires |g| == 4 && |rest| > 0 && DecodeGroup(g).Some? && Decode(rest).Some?
    ensures Decode(g + rest) == Some(DecodeGroup(g).value + Decode(rest).value)
  {
    var s := g + rest;
    assert s[..4] == g && s[4..] == rest;
  }

  lemma OneByteArith(b0: byte)
    ensures var c1 := (b0 % 4) * 16;
      && 0 <= c1 < 64 && c1 % 16 == 0 && (b0 / 4) * 4 + c1 / 16 == b0
  {
  }

  /** A final group padded with `==` decodes to the 8 bits its two sextets carry. */
  lemma DecodeTwoPads(c0: sextet, c1: sextet)
    requires c1 % 16 == 0
    ensures DecodeLast([CharOf(c0), CharOf(c1), '=', '=']) == Some([c0 * 4 + c1 / 16])
  {
    ValueOfCharOf(c0);
    ValueOfCharOf(c1);
  }

  lemma OneByteRoundTrip(b: seq<byte>)
    requires |b| == 1
    ensures Decode(Encode(b)) == Some(b)
  {
    var b0 := b[0];
    assert b == [b0];
    OneByteArith(b0);
    var c0: sextet, c1: sextet := b0 / 4, (b0 % 4) * 16;
    assert Encode(b) == [CharOf(c0), CharOf(c1), '=', '='];
    DecodeTwoPads(c0, c1);
  }

  lemma TwoByteArith(b0: byte, b1: byte)
    ensures var c1 := (b0 % 4) * 16 + b1 / 16;
      var c2 := (b1 % 16) * 4;
      && 0 <= c1 < 64 && 0 <= c2 < 64 && c2 % 4 == 0
      && (b0 / 4) * 4 + c1 / 16 == b0 && (c1 % 16) * 16 + c2 / 4 == b1
  {
  }

  /** A final group with one `=` decodes to the 16 bits its three sextets carry. */
  lemma DecodeOnePad(c0: sextet, c1: sextet, c2: sextet)
    requires c2 % 4 == 0
    ensures DecodeLast([CharOf(c0), CharOf(c1), CharOf(c2), '='])
         == Some([c0 * 4 + c1 / 16, (c1 % 16) * 16 + c2 / 4])
  {
    ValueOfCharOf(c0);
    ValueOfCharOf(c1);
    ValueOfCharOf(c2);
    CharOfIsBase64(c2);
  }

  lemma EncodeTwo(b: seq<byte>)
    requires |b| == 2
    ensures Encode(b) == [CharOf(b[0] / 4), CharOf((b[0] % 4) * 16 + b[1] / 16), CharOf((b[1] % 16) * 4), '=']
  {
  }

  lemma TwoByteRoundTrip(b: seq<byte>)
    requires |b| == 2
    ensures Decode(Encode(b)) == Some(b)
  {
    var b0, b1 := b[0], b[1];
    assert b == [b0, b1];
    EncodeTwo(b);
    TwoBytesDecode(b0, b1);
  }

  lemma TwoBytesDecode(b0: byte, b1: byte)
    ensures Decode([CharOf(b0 / 4), CharOf((b0 % 4) * 16 + b1 / 16), CharOf((b1 % 16) * 4), '='])
         == Some([b0, b1])
  {
    TwoByteArith(b0, b1);
    var c0: sextet, c1: sextet, c2: sextet := b0 / 4, (b0 % 4) * 16 + b1 / 16, (b1 % 16) * 4;
    var q := [CharOf(c0), CharOf(c1), CharOf(c2), '='];
    DecodeIsLast(q);
    DecodeOnePad(c0, c1, c2);
  }

  lemma DecodeIsLast(q: string)
    requires |q| == 4
    ensures Decode(q) == DecodeLast(q)
  {
  }

  /** Decoding the encoding of any bytes gives those bytes back. */
  lemma {:induction false} DecodeEncode(b: seq<byte>)
    ensures Decode(Encode(b)) == Some(b)
    decreases |b|
  {
    if |b| == 1 {
      OneByteRoundTrip(b);
    } else if |b| == 2 {
      TwoByteRoundTrip(b);
    } else if |b| == 3 {
      ThreeByteRoundTrip(b);
    } else if |b| > 3 {
      DecodeEncode(b[3..]);
      GroupThenRest(b);
    }
  }

  lemma ThreeByteRoundTrip(b: seq<byte>)
    requires |b| == 3
    ensures Decode(Encode(b)) == Some(b)
  {
    EncodeStep(b);
    assert Encode(b[3..]) == [];
    var g := EncodeGroup(b[0], b[1], b[2]);
    assert g + [] == g;
    WholeGroupDecodes(b[0], b[1], b[2]);
    assert [b[0], b[1], b[2]] == b;
  }

  /** A whole group standing alone decodes to its three bytes. */
  lemma WholeGroupDecodes(b0: byte, b1: byte, b2: byte)
    ensures Decode(EncodeGroup(b0, b1, b2)) == Some([b0, b1, b2])
  {
    GroupRoundTrip(b0, b1, b2);
    CharOfIsBase64((b1 % 16) * 4 + b2 / 64);
    CharOfIsBase64(b2 % 64);
    DecodeWholeGroup(EncodeGroup(b0, b1, b2));
  }

  /** Three or more bytes encode as a whole group and the encoding of the rest. */
  lemma EncodeStep(b: seq<byte>)
    requires |b| >= 3
    ensures Encode(b) == EncodeGroup(b[0], b[1], b[2]) + Encode(b[3..])
  {
  }

  /** A whole group in front of decodable text decodes to its bytes in front. */
  lemma DecodeAfterGroup(b0: byte, b1: byte, b2: byte, t: string, r: seq<byte>)
    requires |t| > 0 && Decode(t) == Some(r)
    ensures Decode(EncodeGroup(b0, b1, b2) + t) == Some([b0, b1, b2] + r)
  {
    GroupRoundTrip(b0, b1, b2);
    DecodeCons(EncodeGroup(b0, b1, b2), t);
  }

  /** One whole group in front of bytes that round-trip keeps the round trip. */
  lemma GroupThenRest(b: seq<byte>)
    requires |b| > 3 && Decode(Encode(b[3..])) == Some(b[3..])
    ensures Decode(Encode(b)) == Some(b)
  {
    SplitThree(b);
    EncodeStep(b);
    DecodeAfterGroup(b[0], b[1], b[2], Encode(b[3..]), b[3..]);
  }

  lemma SplitThree(b: seq<byte>)
    requires |b| >= 3
    ensures b == [b[0], b[1], b[2]] + b[3..]
  {
  }

  lemma GroupCanonical(q: string)
    requires |q| == 4 && DecodeGroup(q).Some?
    ensures var x := DecodeGroup(q).value; |x| == 3 && EncodeGroup(x[0], x[1], x[2]) == q
  {
    FourChars(q);
    var c0, c1, c2, c3 := ValueOf(q[0]).value, ValueOf(q[1]).value, ValueOf(q[2]).value, ValueOf(q[3]).value;
    CharOfValueOf(q[0]);
    CharOfValueOf(q[1]);
    CharOfValueOf(q[2]);
    CharOfValueOf(q[3]);
    SextetsCanonical(c0, c1, c2, c3);
  }

  /** The bytes four sextets decode to encode back to those sextets' characters. */
  lemma SextetsCanonical(c0: sextet, c1: sextet, c2: sextet, c3: sextet)
    ensures var x0 := c0 * 4 + c1 / 16;
      var x1 := (c1 % 16) * 16 + c2 / 4;
      var x2 := (c2 % 4) * 64 + c3;
      && 0 <= x0 < 256 && 0 <= x1 < 256 && 0 <= x2 < 256
      && EncodeGroup(x0, x1, x2) == [CharOf(c0), CharOf(c1), CharOf(c2), CharOf(c3)]
  {
    SextetArith(c0, c1, c2, c3);
  }

  lemma FourChars(q: string)
    requires |q| == 4
    ensures q == [q[0], q[1], q[2], q[3]]
  {
  }

  lemma OnePadArith(c0: sextet, c1: sextet)
    requires c1 % 16 == 0
    ensures var x0 := c0 * 4 + c1 / 16;
      0 <= x0 < 256 && x0 / 4 == c0 && (x0 % 4) * 16 == c1
  {
  }

  lemma TwoPadArith(c0: sextet, c1: sextet, c2: sextet)
    requires c2 % 4 == 0
    ensures var x0 := c0 * 4 + c1 / 16;
      var x1 := (c1 % 16) * 16 + c2 / 4;
      && 0 <= x0 < 256 && 0 <= x1 < 256
      && x0 / 4 == c0 && (x0 % 4) * 16 + x1 / 16 == c1 && (x1 % 16) * 4 == c2
  {
  }

  /** A final group padded with `==` is the encoding of the one byte it decodes to. */
  lemma OnePadCanonical(q: string)
    requires |q| == 4 && q[2] == '=' && q[3] == '=' && DecodeLast(q).Some?
    ensures Encode(DecodeLast(q).value) == q
  {
    var c0, c1 := ValueOf(q[0]).value, ValueOf(q[1]).value;
    CharOfValueOf(q[0]);
    CharOfValueOf(q[1]);
    OnePadArith(c0, c1);
    assert q == [CharOf(c0), CharOf(c1), '=', '='];
  }

  /** A final group padded with one `=` is the encoding of the two bytes it decodes to. */
  lemma TwoPadCanonical(q: string)
    requires |q| == 4 && q[2] != '=' && q[3] == '=' && DecodeLast(q).Some?
    ensures Encode(DecodeLast(q).value) == q
  {
    var c0, c1, c2 := ValueOf(q[0]).value, ValueOf(q[1]).value, ValueOf(q[2]).value;
    CharOfValueOf(q[0]);
    CharOfValueOf(q[1]);
    CharOfValueOf(q[2]);
    TwoPadArith(c0, c1, c2);
    assert q == [CharOf(c0), CharOf(c1), CharOf(c2), '='];
  }

  /** Whatever the strict decoder accepts is exactly the encoding of what it returns. */
  lemma {:induction false} EncodeDecode(s: string)
    requires Decode(s).Some?
    ensures Encode(Decode(s).value) == s
    decreases |s|
  {
    if |s| == 4 {
      if s[2] == '=' && s[3] == '=' {
        OnePadCanonical(s);
      } else if s[3] == '=' {
        TwoPadCanonical(s);
      } else {
        GroupCanonical(s);
        var x := Decode(s).value;
        assert x[3..] == [];
      }
    } else if |s| > 4 {
      var g := DecodeGroup(s[..4]).value;
      var rest := Decode(s[4..]).value;
      GroupCanonical(s[..4]);
      EncodeDecode(s[4..]);
      var x := g + rest;
      assert x[..3] == g && x[3..] == rest;
      assert s == s[..4] + s[4..];
    }
  }
}
