// The strict UTF-8 codec of section 3 of RFC 3629: no overlong form, no
// surrogate, nothing above U+10FFFF, as Python's "utf-8" codec decodes.
module Utf8 {
  import opened Wrappers
  import opened Bytes

  function EncodeChar(c: char): (b: bytes)
    ensures 1 <= |b| <= 4
  {
    var n := c as int;
    if n < 0x80 then [n]
    else if n < 0x800 then [0xC0 + n / 64, 0x80 + n % 64]
    else if n < 0x10000 then [0xE0 + n / 4096, 0x80 + n / 64 % 64, 0x80 + n % 64]
    else [0xF0 + n / 262144, 0x80 + n / 4096 % 64, 0x80 + n / 64 % 64, 0x80 + n % 64]
  }

  predicate Tail(b: byte) { 0x80 <= b < 0xC0 }

  /** The six payload bits of a continuation byte. */
  function Low(b: byte): int { b - 0x80 }

  /** A decoded character of k bytes, refused when overlong or not a scalar value. */
  function Scalar(n: int, least: nat, k: nat): Option<(char, nat)> {
    if least <= n < 0xD800 || (least <= n && 0xE000 <= n < 0x110000)
    then Some((n as char, k)) else None
  }

  /** The first character of s and the number of bytes it takes. */
  function DecodeChar(s: bytes): Option<(char, nat)>
    requires s != []
  {
    var lead: int := s[0];
    if lead < 0x80 then Some((lead as char, 1))
    else if 0xC0 <= lead < 0xE0 && 2 <= |s| && Tail(s[1]) then
      Scalar((lead - 0xC0) * 64 + Low(s[1]), 0x80, 2)
    else if 0xE0 <= lead < 0xF0 && 3 <= |s| && Tail(s[1]) && Tail(s[2]) then
      Scalar((lead - 0xE0) * 4096 + Low(s[1]) * 64 + Low(s[2]), 0x800, 3)
    else if 0xF0 <= lead < 0xF8 && 4 <= |s| && Tail(s[1]) && Tail(s[2]) && Tail(s[3]) then
      Scalar((lead - 0xF0) * 262144 + Low(s[1]) * 4096 + Low(s[2]) * 64 + Low(s[3]), 0x10000, 4)
    else None
  }

  lemma DecodeEncodedChar(c: char, rest: bytes)
    ensures DecodeChar(EncodeChar(c) + rest) == Some((c, |EncodeChar(c)|))
  {
    var e := EncodeChar(c);
    var s := e + rest;
    var n := c as int;
    assert s[..|e|] == e;
    if n < 0x800 {
    } else if n < 0x10000 {
      assert n / 4096 == n / 64 / 64;
    } else {
      assert n / 4096 == n / 64 / 64 && n / 262144 == n / 4096 / 64;
    }
  }

  lemma TwoByteForm(c: char, high: nat, low: nat)
    requires c as int == high * 64 + low && low < 64 && 0x80 <= c as int < 0x800
    ensures EncodeChar(c) == [0xC0 + high, 0x80 + low]
  {
  }

  lemma ThreeByteForm(c: char, high: nat, middle: nat, low: nat)
    requires c as int == high * 4096 + middle * 64 + low && middle < 64 && low < 64 && 0x800 <= c as int < 0x10000
    ensures EncodeChar(c) == [0xE0 + high, 0x80 + middle, 0x80 + low]
  {
    var n := c as int;
    assert n / 64 == high * 64 + middle && n / 4096 == n / 64 / 64;
  }

  lemma FourByteForm(c: char, high: nat, upper: nat, lower: nat, low: nat)
    requires c as int == high * 262144 + upper * 4096 + lower * 64 + low
    requires upper < 64 && lower < 64 && low < 64 && 0x10000 <= c as int
    ensures EncodeChar(c) == [0xF0 + high, 0x80 + upper, 0x80 + lower, 0x80 + low]
  {
    var n := c as int;
    assert n / 64 == (high * 64 + upper) * 64 + lower;
    assert n / 4096 == n / 64 / 64 && n / 262144 == n / 4096 / 64;
  }

  lemma DecodedCharIsCanonical(s: bytes)
    requires s != [] && DecodeChar(s).Some?
    ensures DecodeChar(s).value.1 <= |s|
    ensures EncodeChar(DecodeChar(s).value.0) == s[..DecodeChar(s).value.1]
  {
    var (c, k) := DecodeChar(s).value;
    var lead: int := s[0];
    if k == 1 {
    } else {
      hide EncodeChar;
      if k == 2 {
        TwoByteForm(c, lead - 0xC0, Low(s[1]));
      } else if k == 3 {
        ThreeByteForm(c, lead - 0xE0, Low(s[1]), Low(s[2]));
      } else {
        FourByteForm(c, lead - 0xF0, Low(s[1]), Low(s[2]), Low(s[3]));
      }
    }
  }

  /** str.encode("utf-8") */
  function Encode(s: string): (b: bytes)
    ensures b == [] <==> s == ""
  {
    if s == "" then [] else EncodeChar(s[0]) + Encode(s[1..])
  }

  lemma {:induction false} EncodeAsciiLength(s: string)
    requires forall i :: 0 <= i < |s| ==> s[i] as int < 0x80
    ensures |Encode(s)| == |s|
  {
    if s != "" {
      EncodeAsciiLength(s[1..]);
    }
  }

  /** ASCII text is its own encoding. */
  lemma {:induction false} EncodeAscii(s: string, i: nat)
    requires forall k :: 0 <= k < |s| ==> s[k] as int < 0x80
    requires i < |s|
    ensures |Encode(s)| == |s| && Encode(s)[i] == s[i] as int
  {
    EncodeAsciiLength(s);
    assert Encode(s) == [s[0] as int] + Encode(s[1..]);
    if i > 0 {
      EncodeAscii(s[1..], i - 1);
    }
  }

  /** bytes.decode("utf-8") */
  function Decode(b: bytes): Option<string>
    decreases |b|
  {
    if b == [] then Some("")
    else match DecodeChar(b)
      case None => None
      case Some((c, k)) =>
        if 1 <= k <= |b| then
          match Decode(b[k..])
          case None => None
          case Some(rest) => Some([c] + rest)
        else None
  }

  lemma {:induction false} DecodeEncode(s: string)
    ensures Decode(Encode(s)) == Some(s)
  {
    hide EncodeChar, DecodeChar;
    if s != "" {
      var e := EncodeChar(s[0]);
      DecodeEncodedChar(s[0], Encode(s[1..]));
      assert Encode(s)[|e|..] == Encode(s[1..]);
      assert s == [s[0]] + s[1..];
      DecodeEncode(s[1..]);
    }
  }

  lemma {:induction false} EncodeDecode(b: bytes)
    requires Decode(b).Some?
    ensures Encode(Decode(b).value) == b
    decreases |b|
  {
    hide EncodeChar, DecodeChar;
    if b != [] {
      var (c, k) := DecodeChar(b).value;
      DecodedCharIsCanonical(b);
      EncodeDecode(b[k..]);
      assert b == b[..k] + b[k..];
    }
  }

  /** Decoding accepts exactly the encodings: no overlong form, no surrogate, nothing out of range. */
  lemma DecodesExactlyEncodings(b: bytes, s: string)
    ensures Decode(b) == Some(s) <==> Encode(s) == b
  {
    hide Encode, Decode;
    DecodeEncode(s);
    if Decode(b).Some? {
      EncodeDecode(b);
    }
  }

  lemma EncodeInjective(a: string, b: string)
    requires Encode(a) == Encode(b)
    ensures a == b
  {
    DecodeEncode(a);
    DecodeEncode(b);
  }
}
