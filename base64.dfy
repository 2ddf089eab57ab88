/**
 * Base64 as `Convert.ToBase64String` produces it: the alphabet of section 4
 * of RFC 4648, three octets to four symbols, and `=` padding on a final group
 * of one or two octets. The decoder is strict in the sense of section 3.5 of
 * RFC 4648 (padding only at the end, unused bits zero), so it accepts exactly
 * the strings the encoder can produce.
 */
module Base64 {
  import opened Bytes
  import opened Wrappers

  /** A six-bit value, the index of one symbol of the alphabet. */
  type sextet = x: int | 0 <= x < 64

  /** The symbol for a six-bit value: `A`-`Z`, `a`-`z`, `0`-`9`, `+`, `/`. */
  function Symbol(v: sextet): char
  {
    if v < 26 then ('A' as int + v) as char
    else if v < 52 then ('a' as int + (v - 26)) as char
    else if v < 62 then ('0' as int + (v - 52)) as char
    else if v == 62 then '+'
    else '/'
  }

  /** The six-bit value of a symbol of the alphabet, `None` for anything else. */
  function SymbolValue(c: char): Option<sextet>
  {
    if 'A' <= c <= 'Z' then Some(c as int - 'A' as int)
    else if 'a' <= c <= 'z' then Some(c as int - 'a' as int + 26)
    else if '0' <= c <= '9' then Some(c as int - '0' as int + 52)
    else if c == '+' then Some(62)
    else if c == '/' then Some(63)
    else None
  }

  /** The alphabet of section 4 of RFC 4648. */
  predicate IsSymbol(c: char) {
    SymbolValue(c).Some?
  }

  lemma SymbolValueSymbol(v: sextet)
    ensures SymbolValue(Symbol(v)) == Some(v)
  {
  }

  /** Three octets as four symbols. */
  function EncodeGroup(b0: byte, b1: byte, b2: byte): string
  {
    [Symbol(b0 / 4), Symbol(b0 % 4 * 16 + b1 / 16), Symbol(b1 % 16 * 4 + b2 / 64), Symbol(b2 % 64)]
  }

  /** The padded form of a final group of one or two octets. */
  function EncodeTail(b: seq<byte>): string
    requires 1 <= |b| <= 2
  {
    if |b| == 1 then [Symbol(b[0] / 4), Symbol(b[0] % 4 * 16), '=', '=']
    else [Symbol(b[0] / 4), Symbol(b[0] % 4 * 16 + b[1] / 16), Symbol(b[1] % 16 * 4), '=']
  }

  /** `Convert.ToBase64String`: whole groups of four symbols, none for no octets. */
  function Encode(b: seq<byte>): (r: string)
    decreases |b|
  {
    if |b| == 0 then []
    else if |b| < 3 then EncodeTail(b)
    else EncodeGroup(b[0], b[1], b[2]) + Encode(b[3..])
  }

  /** Four symbols without padding as three octets. */
  function DecodeGroup(s: string): Option<seq<byte>>
    requires |s| == 4
  {
    var v0, v1, v2, v3 := SymbolValue(s[0]), SymbolValue(s[1]), SymbolValue(s[2]), SymbolValue(s[3]);
    if v0.None? || v1.None? || v2.None? || v3.None? then None
    else
      var a, b, c, d := v0.value, v1.value, v2.value, v3.value;
      Some([a * 4 + b / 16, b % 16 * 16 + c / 4, c % 4 * 64 + d])
  }

  /** A final group of four symbols that may end in padding. */
  function DecodeLast(s: string): Option<seq<byte>>
    requires |s| == 4
  {
    if s[2] == '=' && s[3] == '=' then
      var v0, v1 := SymbolValue(s[0]), SymbolValue(s[1]);
      if v0.None? || v1.None? || v1.value % 16 != 0 then None
      else Some([v0.value * 4 + v1.value / 16])
    else if s[3] == '=' then
      var v0, v1, v2 := SymbolValue(s[0]), SymbolValue(s[1]), SymbolValue(s[2]);
      if v0.None? || v1.None? || v2.None? || v2.value % 4 != 0 then None
      else Some([v0.value * 4 + v1.value / 16, v1.value % 16 * 16 + v2.value / 4])
    else DecodeGroup(s)
  }

  /** The octets a Base64 string stands for, or `None` when it is not canonical Base64. */
  function Decode(s: string): Option<seq<byte>>
    decreases |s|
  {
    if |s| == 0 then Some([])
    else if |s| < 4 then None
    else if |s| == 4 then DecodeLast(s)
    else
      match DecodeGroup(s[..4])
      case None => None
      case Some(q) =>
        match Decode(s[4..])
        case None => None
        case Some(rest) => Some(q + rest)
  }

  /** Splitting `hi * 16 + lo` and `hi * 4 + lo` back into their parts. */
  lemma Split16(hi: int, lo: int)
    requires 0 <= hi && 0 <= lo < 16
    ensures (hi * 16 + lo) / 16 == hi && (hi * 16 + lo) % 16 == lo
  {
  }

  lemma Split4(hi: int, lo: int)
    requires 0 <= hi && 0 <= lo < 4
    ensures (hi * 4 + lo) / 4 == hi && (hi * 4 + lo) % 4 == lo
  {
  }

  /** The arithmetic of one group: the four sextets put the three octets back together. */
  lemma GroupArithmetic(b0: byte, b1: byte, b2: byte)
    ensures (b0 / 4) * 4 + (b0 % 4 * 16 + b1 / 16) / 16 == b0
    ensures (b0 % 4 * 16 + b1 / 16) % 16 * 16 + (b1 % 16 * 4 + b2 / 64) / 4 == b1
    ensures (b1 % 16 * 4 + b2 / 64) % 4 * 64 + b2 % 64 == b2
  {
    Split16(b0 % 4, b1 / 16);
    Split4(b1 % 16, b2 / 64);
  }

  lemma DecodeEncodeGroup(b0: byte, b1: byte, b2: byte)
    ensures DecodeGroup(EncodeGroup(b0, b1, b2)) == Some([b0, b1, b2])
  {
    SymbolValueSymbol(b0 / 4);
    SymbolValueSymbol(b0 % 4 * 16 + b1 / 16);
    SymbolValueSymbol(b1 % 16 * 4 + b2 / 64);
    SymbolValueSymbol(b2 % 64);
    GroupArithmetic(b0, b1, b2);
  }

  lemma DecodeEncodeOneOctet(b0: byte)
    ensures DecodeLast(EncodeTail([b0])) == Some([b0])
  {
    SymbolValueSymbol(b0 / 4);
    SymbolValueSymbol(b0 % 4 * 16);
    Split16(b0 % 4, 0);
    assert (b0 / 4) * 4 + (b0 % 4 * 16) / 16 == b0;
  }

  lemma DecodeEncodeTwoOctets(b0: byte, b1: byte)
    ensures DecodeLast(EncodeTail([b0, b1])) == Some([b0, b1])
  {
    SymbolValueSymbol(b0 / 4);
    SymbolValueSymbol(b0 % 4 * 16 + b1 / 16);
    SymbolValueSymbol(b1 % 16 * 4);
    assert (b0 / 4) * 4 + (b0 % 4 * 16 + b1 / 16) / 16 == b0 && (b0 % 4 * 16 + b1 / 16) % 16 * 16 + (b1 % 16 * 4) / 4 == b1 by {
      GroupArithmetic(b0, b1, 0);
    }
  }

  lemma DecodeEncodeTail(b: seq<byte>)
    requires 1 <= |b| <= 2
    ensures DecodeLast(EncodeTail(b)) == Some(b)
  {
    if |b| == 1 {
      DecodeEncodeOneOctet(b[0]);
      assert [b[0]] == b;
    } else {
      DecodeEncodeTwoOctets(b[0], b[1]);
      assert [b[0], b[1]] == b;
    }
  }

  /** A full group followed by more octets is encoded group first. */
  lemma EncodeFullGroup(b: seq<byte>)
    requires |b| >= 3
    ensures Encode(b) == EncodeGroup(b[0], b[1], b[2]) + Encode(b[3..])
  {
  }

  /** A group of four symbols followed by more symbols is decoded group first. */
  lemma DecodeFullGroup(g: string, rest: string)
    requires |g| == 4 && rest != []
    ensures Decode(g + rest) ==
      match DecodeGroup(g)
      case None => None
      case Some(q) =>
        match Decode(rest)
        case None => None
        case Some(r) => Some(q + r)
  {
    assert (g + rest)[..4] == g && (g + rest)[4..] == rest;
  }

  /** Round trip: decoding an encoding gives back the octets. */
  lemma {:induction false} DecodeEncode(b: seq<byte>)
    ensures Decode(Encode(b)) == Some(b)
    decreases |b|
  {
    if |b| == 0 {
    } else if |b| < 3 {
      DecodeEncodeTail(b);
    } else {
      var g := EncodeGroup(b[0], b[1], b[2]);
      EncodeFullGroup(b);
      DecodeEncodeGroup(b[0], b[1], b[2]);
      assert b == [b[0], b[1], b[2]] + b[3..];
      if |b| == 3 {
        assert b[3..] == [] && b == [b[0], b[1], b[2]];
        assert Encode(b) == g;
        SymbolInAlphabet(b[2] % 64);
        assert g[3] == Symbol(b[2] % 64) != '=';
        assert Decode(g) == DecodeLast(g) == DecodeGroup(g);
      } else {
        DecodeEncode(b[3..]);
        EncodeLength(b[3..]);
        DecodeFullGroup(g, Encode(b[3..]));
      }
    }
  }

  /** Length law: four symbols for every started group of three octets. */
  lemma {:induction false} EncodeLength(b: seq<byte>)
    ensures |Encode(b)| == 4 * ((|b| + 2) / 3)
    decreases |b|
  {
    if |b| >= 3 {
      EncodeLength(b[3..]);
      assert |Encode(b)| == 4 + |Encode(b[3..])|;
      assert (|b| + 2) / 3 == 1 + (|b[3..]| + 2) / 3;
    }
  }

  /** The number of `=` that end the encoding of `n` octets. */
  function Padding(n: nat): nat {
    (3 - n % 3) % 3
  }

  /** Every symbol is in the alphabet and none is the pad character. */
  lemma SymbolInAlphabet(v: sextet)
    ensures IsSymbol(Symbol(v)) && Symbol(v) != '='
  {
    SymbolValueSymbol(v);
  }

  /** `e` is symbols of the alphabet followed by exactly `pad` pad characters. */
  predicate PaddedForm(e: string, pad: nat) {
    pad <= |e| &&
    (forall i :: 0 <= i < |e| ==> (IsSymbol(e[i]) <==> i < |e| - pad)) &&
    (forall i :: 0 <= i < |e| ==> (e[i] == '=' <==> i >= |e| - pad))
  }

  /** Symbols put in front of a padded form keep it a padded form. */
  lemma PaddedFormPrepend(g: string, r: string, pad: nat)
    requires forall i :: 0 <= i < |g| ==> IsSymbol(g[i]) && g[i] != '='
    requires PaddedForm(r, pad)
    ensures PaddedForm(g + r, pad)
  {
    var e := g + r;
    forall i | 0 <= i < |e|
      ensures (IsSymbol(e[i]) <==> i < |e| - pad) && (e[i] == '=' <==> i >= |e| - pad)
    {
      if i >= |g| {
        assert e[i] == r[i - |g|];
      } else {
        assert e[i] == g[i];
      }
    }
  }

  /** A full group is four symbols of the alphabet. */
  lemma GroupAlphabet(b0: byte, b1: byte, b2: byte)
    ensures forall i :: 0 <= i < 4 ==> IsSymbol(EncodeGroup(b0, b1, b2)[i]) && EncodeGroup(b0, b1, b2)[i] != '='
  {
    SymbolInAlphabet(b0 / 4);
    SymbolInAlphabet(b0 % 4 * 16 + b1 / 16);
    SymbolInAlphabet(b1 % 16 * 4 + b2 / 64);
    SymbolInAlphabet(b2 % 64);
  }

  /** A final group of one or two octets is symbols followed by `Padding` pad characters. */
  lemma TailAlphabet(b: seq<byte>)
    requires 1 <= |b| <= 2
    ensures PaddedForm(EncodeTail(b), Padding(|b|))
  {
    SymbolInAlphabet(b[0] / 4);
    if |b| == 1 {
      SymbolInAlphabet(b[0] % 4 * 16);
    } else {
      SymbolInAlphabet(b[0] % 4 * 16 + b[1] / 16);
      SymbolInAlphabet(b[1] % 16 * 4);
    }
  }

  /** Three more octets need as much padding. */
  lemma PaddingPeriodic(n: nat)
    ensures Padding(n + 3) == Padding(n)
  {
  }

  /** A full group in front of a padded encoding keeps it padded. */
  lemma EncodeAlphabetStep(b: seq<byte>)
    requires |b| >= 3 && PaddedForm(Encode(b[3..]), Padding(|b| - 3))
    ensures PaddedForm(Encode(b), Padding(|b|))
  {
    var g, r := EncodeGroup(b[0], b[1], b[2]), Encode(b[3..]);
    EncodeFullGroup(b);
    PaddingPeriodic(|b| - 3);
    assert forall i :: 0 <= i < |g| ==> IsSymbol(g[i]) && g[i] != '=' by {
      GroupAlphabet(b[0], b[1], b[2]);
    }
    PaddedFormPrepend(g, r, Padding(|b|));
  }

  /**
   * An encoding is symbols of the alphabet followed by `Padding(|b|)` pad
   * characters: no `=` anywhere else, and no symbol among the last
   * `Padding(|b|)` positions.
   */
  lemma {:induction false} EncodeAlphabet(b: seq<byte>)
    ensures PaddedForm(Encode(b), Padding(|b|))
    decreases |b|
  {
    if |b| == 0 {
    } else if |b| < 3 {
      TailAlphabet(b);
    } else {
      EncodeAlphabet(b[3..]);
      EncodeAlphabetStep(b);
    }
  }

  lemma SymbolSymbolValue(c: char)
    requires IsSymbol(c)
    ensures Symbol(SymbolValue(c).value) == c
  {
  }

  /** The arithmetic of one group read back: the three octets give the four sextets again. */
  lemma SextetArithmetic(a: sextet, b: sextet, c: sextet, d: sextet)
    ensures (a * 4 + b / 16) / 4 == a
    ensures (a * 4 + b / 16) % 4 * 16 + (b % 16 * 16 + c / 4) / 16 == b
    ensures (b % 16 * 16 + c / 4) % 16 * 4 + (c % 4 * 64 + d) / 64 == c
    ensures (c % 4 * 64 + d) % 64 == d
  {
    Split4(a, b / 16);
    Split16(b % 16, c / 4);
  }

  lemma EncodeDecodeGroup(s: string)
    requires |s| == 4 && DecodeGroup(s).Some?
    ensures |DecodeGroup(s).value| == 3
    ensures EncodeGroup(DecodeGroup(s).value[0], DecodeGroup(s).value[1], DecodeGroup(s).value[2]) == s
  {
    var a: int, b: int, c: int, d: int := SymbolValue(s[0]).value, SymbolValue(s[1]).value, SymbolValue(s[2]).value, SymbolValue(s[3]).value;
    var q := DecodeGroup(s).value;
    assert |q| == 3 && q[0] == a * 4 + b / 16 && q[1] == b % 16 * 16 + c / 4 && q[2] == c % 4 * 64 + d;
    assert q[0] / 4 == a && q[0] % 4 * 16 + q[1] / 16 == b && q[1] % 16 * 4 + q[2] / 64 == c && q[2] % 64 == d by {
      SextetArithmetic(a, b, c, d);
    }
    SymbolSymbolValue(s[0]);
    SymbolSymbolValue(s[1]);
    SymbolSymbolValue(s[2]);
    SymbolSymbolValue(s[3]);
  }

  lemma EncodeDecodeOneOctet(s: string)
    requires |s| == 4 && s[2] == '=' && s[3] == '=' && DecodeLast(s).Some?
    ensures |DecodeLast(s).value| == 1 && EncodeTail(DecodeLast(s).value) == s
  {
    var a, b := SymbolValue(s[0]).value, SymbolValue(s[1]).value;
    Split4(a, b / 16);
    SymbolSymbolValue(s[0]);
    SymbolSymbolValue(s[1]);
  }

  lemma EncodeDecodeTwoOctets(s: string)
    requires |s| == 4 && s[2] != '=' && s[3] == '=' && DecodeLast(s).Some?
    ensures |DecodeLast(s).value| == 2 && EncodeTail(DecodeLast(s).value) == s
  {
    var a: int, b: int, c: int := SymbolValue(s[0]).value, SymbolValue(s[1]).value, SymbolValue(s[2]).value;
    var q := DecodeLast(s).value;
    assert |q| == 2 && q[0] == a * 4 + b / 16 && q[1] == b % 16 * 16 + c / 4;
    assert q[0] / 4 == a && q[0] % 4 * 16 + q[1] / 16 == b && q[1] % 16 * 4 == c by {
      SextetArithmetic(a, b, c, 0);
    }
    SymbolSymbolValue(s[0]);
    SymbolSymbolValue(s[1]);
    SymbolSymbolValue(s[2]);
  }

  lemma EncodeDecodeLast(s: string)
    requires |s| == 4 && DecodeLast(s).Some?
    ensures Encode(DecodeLast(s).value) == s
  {
    var q := DecodeLast(s).value;
    if s[2] == '=' && s[3] == '=' {
      EncodeDecodeOneOctet(s);
    } else if s[3] == '=' {
      EncodeDecodeTwoOctets(s);
    } else {
      EncodeDecodeGroup(s);
      assert q[3..] == [];
      EncodeFullGroup(q);
    }
  }

  /** The decoder accepts only encodings: whatever it returns encodes back to its input. */
  lemma {:induction false} EncodeDecode(s: string)
    requires Decode(s).Some?
    ensures Encode(Decode(s).value) == s
    decreases |s|
  {
    if |s| == 4 {
      EncodeDecodeLast(s);
    } else if |s| > 4 {
      var g, rest := s[..4], s[4..];
      assert s == g + rest;
      DecodeFullGroup(g, rest);
      EncodeDecodeGroup(g);
      EncodeDecode(rest);
      var q := DecodeGroup(g).value;
      var b := q + Decode(rest).value;
      assert b[3..] == Decode(rest).value;
      EncodeFullGroup(b);
    }
  }
}
