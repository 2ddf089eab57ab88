/**
 * UTF-8 as `Encoding.UTF8.GetBytes` produces it, following section 3 of
 * RFC 3629: a scalar value takes one to four octets, the lead octet says how
 * many, every following octet is `10xxxxxx`. The decoder accepts exactly the
 * well-formed sequences of section 4 of RFC 3629 (no overlong forms, no
 * surrogates, nothing above U+10FFFF), so that a receiver reading the Basic
 * credential can recover the client id and secret.
 */
module Utf8 {
  import opened Bytes
  import opened Wrappers

  /** A continuation octet, `10xxxxxx`, carrying the six bits `v`. */
  function Cont(v: int): byte
    requires 0 <= v < 64
  {
    0x80 + v
  }

  predicate IsCont(b: byte) {
    0x80 <= b < 0xC0
  }

  /** The six bits a continuation octet carries. */
  function Payload(b: byte): int {
    b as int - 0x80
  }

  /** The octets of one scalar value. */
  function EncodeChar(c: char): (r: seq<byte>)
    ensures 1 <= |r| <= 4
    ensures |r| == 1 <==> c as int < 0x80
  {
    var cp := c as int;
    if cp < 0x80 then [cp]
    else if cp < 0x800 then [0xC0 + cp / 64, Cont(cp % 64)]
    else if cp < 0x10000 then [0xE0 + cp / 4096, Cont(cp / 64 % 64), Cont(cp % 64)]
    else [0xF0 + cp / 262144, Cont(cp / 4096 % 64), Cont(cp / 64 % 64), Cont(cp % 64)]
  }

  /** The octets of a string, character by character: one to four per character. */
  function Encode(s: string): (r: seq<byte>)
  {
    if s == [] then [] else EncodeChar(s[0]) + Encode(s[1..])
  }

  /** A Unicode scalar value: a code point that is not a surrogate. */
  predicate IsScalar(cp: int) {
    0 <= cp < 0xD800 || 0xE000 <= cp < 0x110000
  }

  /**
   * The first character of `b` and the number of octets it occupies, or
   * `None` when `b` does not start with a well-formed sequence.
   */
  function DecodeFirst(b: seq<byte>): (r: Option<(char, nat)>)
    requires b != []
    ensures r.Some? ==> 1 <= r.value.1 <= |b|
  {
    var b0 := b[0] as int;
    if b0 < 0x80 then Some((b0 as char, 1))
    else if 0xC2 <= b0 < 0xE0 && 2 <= |b| && IsCont(b[1]) then
      Some((((b0 - 0xC0) * 64 + Payload(b[1])) as char, 2))
    else if 0xE0 <= b0 < 0xF0 && 3 <= |b| && IsCont(b[1]) && IsCont(b[2]) then
      var cp := (b0 - 0xE0) * 4096 + Payload(b[1]) * 64 + Payload(b[2]);
      if 0x800 <= cp && IsScalar(cp) then Some((cp as char, 3)) else None
    else if 0xF0 <= b0 < 0xF5 && 4 <= |b| && IsCont(b[1]) && IsCont(b[2]) && IsCont(b[3]) then
      var cp := (b0 - 0xF0) * 262144 + Payload(b[1]) * 4096 + Payload(b[2]) * 64 + Payload(b[3]);
      if 0x10000 <= cp < 0x110000 then Some((cp as char, 4)) else None
    else None
  }

  /** The string whose UTF-8 form is `b`, or `None` when `b` is ill-formed. */
  function Decode(b: seq<byte>): Option<string>
    decreases |b|
  {
    if b == [] then Some([])
    else match DecodeFirst(b)
      case None => None
      case Some((c, n)) =>
        match Decode(b[n..])
        case None => None
        case Some(rest) => Some([c] + rest)
  }

  /** A code point is rebuilt from its six-bit groups. */
  lemma SixBitGroups(cp: int)
    requires 0 <= cp
    ensures cp == (cp / 64) * 64 + cp % 64
    ensures cp / 64 == (cp / 4096) * 64 + cp / 64 % 64
    ensures cp / 4096 == (cp / 262144) * 64 + cp / 4096 % 64
  {
  }

  lemma DecodeFirstTwo(c: char, rest: seq<byte>)
    requires 0x80 <= c as int < 0x800
    ensures DecodeFirst(EncodeChar(c) + rest) == Some((c, 2))
  {
    var cp := c as int;
    var b := EncodeChar(c) + rest;
    assert b[0] == 0xC0 + cp / 64 && b[1] == 0x80 + cp % 64;
    assert (b[0] as int - 0xC0) * 64 + Payload(b[1]) == cp;
  }

  lemma DecodeFirstThree(c: char, rest: seq<byte>)
    requires 0x800 <= c as int < 0x10000
    ensures DecodeFirst(EncodeChar(c) + rest) == Some((c, 3))
  {
    var cp := c as int;
    var b := EncodeChar(c) + rest;
    SixBitGroups(cp);
    assert b[0] == 0xE0 + cp / 4096 && b[1] == 0x80 + cp / 64 % 64 && b[2] == 0x80 + cp % 64;
    assert (b[0] as int - 0xE0) * 4096 + Payload(b[1]) * 64 + Payload(b[2]) == cp;
  }

  lemma DecodeFirstFour(c: char, rest: seq<byte>)
    requires 0x10000 <= c as int
    ensures DecodeFirst(EncodeChar(c) + rest) == Some((c, 4))
  {
    var cp := c as int;
    var b := EncodeChar(c) + rest;
    SixBitGroups(cp);
    assert b[0] == 0xF0 + cp / 262144 && b[1] == 0x80 + cp / 4096 % 64;
    assert b[2] == 0x80 + cp / 64 % 64 && b[3] == 0x80 + cp % 64;
    assert (b[0] as int - 0xF0) * 262144 + Payload(b[1]) * 4096 + Payload(b[2]) * 64 + Payload(b[3]) == cp;
  }

  /** Decoding the octets of one character, followed by anything, gives that character back. */
  lemma DecodeFirstEncodeChar(c: char, rest: seq<byte>)
    ensures DecodeFirst(EncodeChar(c) + rest) == Some((c, |EncodeChar(c)|))
  {
    var cp := c as int;
    if cp < 0x80 {
    } else if cp < 0x800 {
      DecodeFirstTwo(c, rest);
    } else if cp < 0x10000 {
      DecodeFirstThree(c, rest);
    } else {
      DecodeFirstFour(c, rest);
    }
  }

  /** Round trip: the decoder inverts the encoder on every string. */
  lemma {:induction false} DecodeEncode(s: string)
    ensures Decode(Encode(s)) == Some(s)
  {
    if s != [] {
      var e := EncodeChar(s[0]);
      DecodeFirstEncodeChar(s[0], Encode(s[1..]));
      assert (e + Encode(s[1..]))[|e|..] == Encode(s[1..]);
      DecodeEncode(s[1..]);
      assert [s[0]] + s[1..] == s;
    }
  }

  /** Splitting off the low six bits of `hi * 64 + lo`. */
  lemma ShiftSix(hi: int, lo: int)
    requires 0 <= hi && 0 <= lo < 64
    ensures (hi * 64 + lo) / 64 == hi && (hi * 64 + lo) % 64 == lo
  {
  }

  /** The code point of a two-octet sequence gives back its octets. */
  lemma TwoOctetArithmetic(b0: int, p1: int)
    requires 0xC2 <= b0 < 0xE0 && 0 <= p1 < 64
    ensures var cp := (b0 - 0xC0) * 64 + p1;
      0x80 <= cp < 0x800 && 0xC0 + cp / 64 == b0 && cp % 64 == p1
  {
    ShiftSix(b0 - 0xC0, p1);
  }

  /** The code point of a three-octet sequence gives back its octets. */
  lemma ThreeOctetArithmetic(b0: int, p1: int, p2: int)
    requires 0xE0 <= b0 < 0xF0 && 0 <= p1 < 64 && 0 <= p2 < 64
    ensures var cp := (b0 - 0xE0) * 4096 + p1 * 64 + p2;
      cp < 0x10000 && 0xE0 + cp / 4096 == b0 && cp / 64 % 64 == p1 && cp % 64 == p2
  {
    var hi := (b0 - 0xE0) * 64 + p1;
    assert (b0 - 0xE0) * 4096 + p1 * 64 + p2 == hi * 64 + p2;
    ShiftSix(hi, p2);
    ShiftSix(b0 - 0xE0, p1);
    NestedDivision(hi * 64 + p2);
  }

  /** The code point of a four-octet sequence gives back its octets. */
  lemma FourOctetArithmetic(b0: int, p1: int, p2: int, p3: int)
    requires 0xF0 <= b0 < 0xF5 && 0 <= p1 < 64 && 0 <= p2 < 64 && 0 <= p3 < 64
    ensures var cp := (b0 - 0xF0) * 262144 + p1 * 4096 + p2 * 64 + p3;
      0xF0 + cp / 262144 == b0 && cp / 4096 % 64 == p1 && cp / 64 % 64 == p2 && cp % 64 == p3
  {
    var top := (b0 - 0xF0) * 64 + p1;
    var hi := top * 64 + p2;
    assert (b0 - 0xF0) * 262144 + p1 * 4096 + p2 * 64 + p3 == hi * 64 + p3;
    ShiftSix(hi, p3);
    ShiftSix(top, p2);
    ShiftSix(b0 - 0xF0, p1);
    NestedDivision(hi * 64 + p3);
  }

  /** Dividing by 4096 and 262144 is dividing by 64 two and three times. */
  lemma NestedDivision(x: int)
    requires 0 <= x
    ensures x / 4096 == x / 64 / 64 && x / 262144 == x / 4096 / 64
  {
  }

  lemma EncodeDecodeTwo(b: seq<byte>)
    requires b != [] && DecodeFirst(b).Some? && DecodeFirst(b).value.1 == 2
    ensures EncodeChar(DecodeFirst(b).value.0) == b[..2]
  {
    var c := DecodeFirst(b).value.0;
    assert c as int == (b[0] as int - 0xC0) * 64 + Payload(b[1]);
    TwoOctetArithmetic(b[0] as int, Payload(b[1]));
    assert b[..2] == [b[0], b[1]];
  }

  lemma EncodeDecodeThree(b: seq<byte>)
    requires b != [] && DecodeFirst(b).Some? && DecodeFirst(b).value.1 == 3
    ensures EncodeChar(DecodeFirst(b).value.0) == b[..3]
  {
    var c := DecodeFirst(b).value.0;
    assert c as int == (b[0] as int - 0xE0) * 4096 + Payload(b[1]) * 64 + Payload(b[2]) && c as int >= 0x800;
    ThreeOctetArithmetic(b[0] as int, Payload(b[1]), Payload(b[2]));
    assert b[..3] == [b[0], b[1], b[2]];
  }

  lemma EncodeDecodeFour(b: seq<byte>)
    requires b != [] && DecodeFirst(b).Some? && DecodeFirst(b).value.1 == 4
    ensures EncodeChar(DecodeFirst(b).value.0) == b[..4]
  {
    var c := DecodeFirst(b).value.0;
    assert c as int == (b[0] as int - 0xF0) * 262144 + Payload(b[1]) * 4096 + Payload(b[2]) * 64 + Payload(b[3]);
    assert c as int >= 0x10000;
    FourOctetArithmetic(b[0] as int, Payload(b[1]), Payload(b[2]), Payload(b[3]));
    assert b[..4] == [b[0], b[1], b[2], b[3]];
  }

  /** A well-formed sequence decodes to the character whose encoding it is. */
  lemma EncodeDecodeFirst(b: seq<byte>)
    requires b != [] && DecodeFirst(b).Some?
    ensures EncodeChar(DecodeFirst(b).value.0) == b[..DecodeFirst(b).value.1]
  {
    var n := DecodeFirst(b).value.1;
    if n == 2 {
      EncodeDecodeTwo(b);
    } else if n == 3 {
      EncodeDecodeThree(b);
    } else if n == 4 {
      EncodeDecodeFour(b);
    }
  }

  /** The decoder accepts only encodings: whatever it returns encodes back to its input. */
  lemma {:induction false} EncodeDecode(b: seq<byte>)
    requires Decode(b).Some?
    ensures Encode(Decode(b).value) == b
    decreases |b|
  {
    if b != [] {
      var (c, n) := DecodeFirst(b).value;
      var rest := Decode(b[n..]).value;
      var s := Decode(b).value;
      assert s == [c] + rest;
      assert Encode(s) == EncodeChar(c) + Encode(rest) by {
        assert s[0] == c && s[1..] == rest;
      }
      EncodeDecodeFirst(b);
      EncodeDecode(b[n..]);
      assert b == b[..n] + b[n..];
    }
  }

  /** Encoding distributes over concatenation. */
  lemma {:induction false} EncodeAppend(s: string, t: string)
    ensures Encode(s + t) == Encode(s) + Encode(t)
  {
    if s == [] {
      assert s + t == t;
    } else {
      assert (s + t)[1..] == s[1..] + t;
      EncodeAppend(s[1..], t);
    }
  }

  /** A character below U+0080. */
  predicate IsAscii(c: char) {
    c as int < 0x80
  }

  /** On ASCII text the encoding is one octet per character, equal to the code. */
  lemma {:induction false} EncodeAscii(s: string)
    requires forall i :: 0 <= i < |s| ==> IsAscii(s[i])
    ensures |Encode(s)| == |s|
    ensures forall i :: 0 <= i < |s| ==> Encode(s)[i] == s[i] as int
  {
    if s != [] {
      EncodeAscii(s[1..]);
    }
  }
}
