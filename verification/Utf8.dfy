/** Strings as bytes. */
module Utf8 {
  import opened Wrappers
  import opened Text

  function EncodeChar(c: char): seq<byte> {
    var n := c as int;
    if n < 0x80 then [n]
    else if n < 0x800 then [0xC0 + n / 64, 0x80 + n % 64]
    else if n < 0x10000 then [0xE0 + n / 4096, 0x80 + n / 64 % 64, 0x80 + n % 64]
    else [0xF0 + n / 262144, 0x80 + n / 4096 % 64, 0x80 + n / 64 % 64, 0x80 + n % 64]
  }

  function Encode(s: string): seq<byte> {
    if s == "" then [] else EncodeChar(s[0]) + Encode(s[1..])
  }

  function Width(lead: int): nat {
    if lead < 0x80 then 1 else if lead < 0xE0 then 2 else if lead < 0xF0 then 3 else 4
  }

  /** The code point written by one encoded character. */
  function CodePoint(b: seq<int>): int
    requires 1 <= |b| <= 4
  {
    if |b| == 1 then b[0]
    else if |b| == 2 then (b[0] - 0xC0) * 64 + (b[1] - 0x80)
    else if |b| == 3 then (b[0] - 0xE0) * 4096 + (b[1] - 0x80) * 64 + (b[2] - 0x80)
    else (b[0] - 0xF0) * 262144 + (b[1] - 0x80) * 4096 + (b[2] - 0x80) * 64 + (b[3] - 0x80)
  }

  lemma {:induction false} CharShape(c: char)
    ensures |EncodeChar(c)| == Width(EncodeChar(c)[0])
    ensures CodePoint(EncodeChar(c)) == c as int
  {
    var n := c as int;
    assert n / 64 == n / 4096 * 64 + n / 64 % 64;
    assert n / 4096 == n / 262144 * 64 + n / 4096 % 64;
  }

  lemma {:induction false} CharPrefixFree(a: char, b: char, x: seq<byte>, y: seq<byte>)
    requires EncodeChar(a) + x == EncodeChar(b) + y
    ensures a == b && x == y
  {
    hide CodePoint;
    CharShape(a);
    CharShape(b);
    var p, q := EncodeChar(a), EncodeChar(b);
    assert p[0] == (p + x)[0] == (q + y)[0] == q[0];
    assert p == (p + x)[..|p|] && q == (q + y)[..|p|];
    assert x == (p + x)[|p|..] && y == (q + y)[|p|..];
  }

  /** Different strings have different bytes. */
  lemma {:induction false} EncodeInjective(s: string, t: string)
    requires Encode(s) == Encode(t)
    ensures s == t
  {
    if s != "" { CharShape(s[0]); }
    if t != "" { CharShape(t[0]); }
    if s != "" && t != "" {
      CharPrefixFree(s[0], t[0], Encode(s[1..]), Encode(t[1..]));
      EncodeInjective(s[1..], t[1..]);
      assert s == [s[0]] + s[1..] && t == [t[0]] + t[1..];
    }
  }

  predicate IsScalar(n: int) {
    0 <= n < 0xD800 || 0xE000 <= n < 0x110000
  }

  /** Only what is written for a character is read: nothing overlong, no surrogates. */
  function Decode(b: seq<byte>): Option<string> {
    if b == [] then Some("")
    else
      var n := Width(b[0]);
      if |b| < n || !IsScalar(CodePoint(b[..n])) || EncodeChar(CodePoint(b[..n]) as char) != b[..n] then None
      else
        var rest :- Decode(b[n..]);
        Some([CodePoint(b[..n]) as char] + rest)
  }

  /** Decoding inverts encoding. */
  lemma {:induction false} DecodeEncode(s: string)
    ensures Decode(Encode(s)) == Some(s)
  {
    hide EncodeChar, CodePoint, Width;
    if s != "" {
      var c, rest := s[0], Encode(s[1..]);
      var p := EncodeChar(c);
      CharShape(c);
      DecodeEncode(s[1..]);
      NotNothing(c);
      assert (p + rest)[..|p|] == p && (p + rest)[|p|..] == rest && (p + rest)[0] == p[0];
      assert s == [c] + s[1..];
    }
  }

  lemma {:induction false} NotNothing(c: char)
    ensures EncodeChar(c) != [] && IsScalar(c as int)
  {
  }

  /** Whatever is decoded was encoded. */
  lemma {:induction false} EncodeDecode(b: seq<byte>)
    requires Decode(b).Some?
    ensures Encode(Decode(b).value) == b
  {
    hide EncodeChar, CodePoint, Width, IsScalar;
    if b != [] {
      var n := Width(b[0]);
      EncodeDecode(b[n..]);
      var rest := Decode(b[n..]).value;
      var c := Decode(b).value[0];
      assert Decode(b).value == [c] + rest;
      assert ([c] + rest)[1..] == rest;
      assert b == b[..n] + b[n..];
    }
  }

  /** The decoder accepts exactly what is written for some text, and gives that text. */
  lemma {:induction false} DecodeExactly(b: seq<byte>, s: string)
    ensures Decode(b) == Some(s) <==> b == Encode(s)
  {
    hide EncodeChar, CodePoint, Width, IsScalar, Decode, Encode;
    DecodeEncode(s);
    if Decode(b).Some? { EncodeDecode(b); }
  }

  /** The bytes of one character, by the number of its bits: a lead byte that says how many bytes there
      are, then bytes from 0x80 to 0xBF with six bits each (section 3 of RFC 3629). */
  lemma {:induction false} EncodedChar(c: char)
    ensures c as int < 0x80 ==> Encode([c]) == [c as int]
    ensures 0x80 <= c as int < 0x800 ==> Spells(Encode([c]), 2, 0xC0, c as int)
    ensures 0x800 <= c as int < 0x10000 ==> Spells(Encode([c]), 3, 0xE0, c as int)
    ensures 0x10000 <= c as int ==> Spells(Encode([c]), 4, 0xF0, c as int)
  {
    assert [c][1..] == "";
    assert Encode([c]) == EncodeChar(c) + [];
    CharShape(c);
    var b := EncodeChar(c);
    assert Encode([c]) == b;
    if |b| > 1 { Unfold(b[0] as int - (if |b| == 2 then 0xC0 else if |b| == 3 then 0xE0 else 0xF0), b[1..]); }
  }

  /** The value of bytes with six bits each, behind the bits in front. */
  function Bits(front: int, b: seq<byte>): int
    decreases |b|
  {
    if b == [] then front else Bits(front * 0x40 + (b[0] as int - 0x80), b[1..])
  }

  ghost predicate Spells(b: seq<byte>, width: nat, lead: int, n: int) {
    && |b| == width >= 1 && lead <= b[0] < lead + 0x20 && Bits(b[0] as int - lead, b[1..]) == n
    && forall i | 1 <= i < |b| :: 0x80 <= b[i] < 0xC0
  }

  lemma {:induction false} Unfold(front: int, b: seq<byte>)
    ensures |b| == 1 ==> Bits(front, b) == front * 0x40 + (b[0] as int - 0x80)
    ensures |b| == 2 ==> Bits(front, b) == (front * 0x40 + (b[0] as int - 0x80)) * 0x40 + (b[1] as int - 0x80)
    ensures |b| == 3 ==>
      Bits(front, b)
      == ((front * 0x40 + (b[0] as int - 0x80)) * 0x40 + (b[1] as int - 0x80)) * 0x40 + (b[2] as int - 0x80)
    decreases |b|
  {
    if |b| > 0 {
      assert Bits(front, b) == Bits(front * 0x40 + (b[0] as int - 0x80), b[1..]);
      if |b| > 1 && |b| < 4 { Unfold(front * 0x40 + (b[0] as int - 0x80), b[1..]); }
    }
  }

  /** A text's bytes are those of its characters. */
  lemma {:induction false} EncodedText(s: string, t: string)
    ensures Encode(s + t) == Encode(s) + Encode(t)
  {
    hide EncodeChar;
    if s == "" {
      assert s + t == t;
    } else {
      assert (s + t)[1..] == s[1..] + t;
      EncodedText(s[1..], t);
    }
  }
}
