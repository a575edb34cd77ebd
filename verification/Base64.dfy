/** Base64 with the standard alphabet (RFC 4648, section 4).  Decoding is the lenient form that
    section 4.2.7 of RFC 8941 describes: missing padding is synthesised and unused bits are
    ignored. */
module Base64 {
  import opened Wrappers
  import opened Text

  predicate IsDigit64(c: char) {
    IsUpper(c) || IsLower(c) || IsDigit(c) || c == '+' || c == '/'
  }

  function Char64(v: int): (c: char)
    requires 0 <= v < 64
    ensures IsDigit64(c)
  {
    if v < 26 then ('A' as int + v) as char
    else if v < 52 then ('a' as int + (v - 26)) as char
    else if v < 62 then ('0' as int + (v - 52)) as char
    else if v == 62 then '+' else '/'
  }

  function Value64(c: char): (v: int)
    requires IsDigit64(c)
    ensures 0 <= v < 64
  {
    if IsUpper(c) then c as int - 'A' as int
    else if IsLower(c) then c as int - 'a' as int + 26
    else if IsDigit(c) then c as int - '0' as int + 52
    else if c == '+' then 62 else 63
  }

  lemma {:induction false} ValueOfChar(v: int)
    requires 0 <= v < 64
    ensures Value64(Char64(v)) == v
  {
  }

  function Encode(b: seq<byte>): string {
    if |b| == 0 then ""
    else if |b| == 1 then [Char64(b[0] / 4), Char64(b[0] % 4 * 16), '=', '=']
    else if |b| == 2 then
      [Char64(b[0] / 4), Char64(b[0] % 4 * 16 + b[1] / 16), Char64(b[1] % 16 * 4), '=']
    else
      [Char64(b[0] / 4), Char64(b[0] % 4 * 16 + b[1] / 16), Char64(b[1] % 16 * 4 + b[2] / 64), Char64(b[2] % 64)]
      + Encode(b[3..])
  }

  function First(p: int, q: int): byte
    requires 0 <= p < 64 && 0 <= q < 64
  {
    p * 4 + q / 16
  }

  function Second(q: int, r: int): byte
    requires 0 <= q < 64 && 0 <= r < 64
  {
    q % 16 * 16 + r / 4
  }

  function Third(r: int, s: int): byte
    requires 0 <= r < 64 && 0 <= s < 64
  {
    r % 4 * 64 + s
  }

  function Decode(s: string): Option<seq<byte>> {
    if s == "" then Some([])
    else if |s| < 2 || !IsDigit64(s[0]) || !IsDigit64(s[1]) then None
    else
      var p, q := Value64(s[0]), Value64(s[1]);
      if s[2..] == "" || s[2..] == "=" || s[2..] == "==" then Some([First(p, q)])
      else if !IsDigit64(s[2]) then None
      else
        var r := Value64(s[2]);
        if s[3..] == "" || s[3..] == "=" then Some([First(p, q), Second(q, r)])
        else if !IsDigit64(s[3]) then None
        else
          var rest :- Decode(s[4..]);
          Some([First(p, q), Second(q, r), Third(r, Value64(s[3]))] + rest)
  }

  lemma {:induction false} EncodeAlphabet(b: seq<byte>)
    ensures forall c <- Encode(b) :: IsDigit64(c) || c == '='
  {
    if |b| > 2 {
      EncodeAlphabet(b[3..]);
    }
  }

  /** Nothing else is decoded. */
  lemma {:induction false} DecodeAlphabet(s: string)
    requires Decode(s).Some?
    ensures forall c <- s :: IsDigit64(c) || c == '='
  {
    hide IsDigit64, Value64, First, Second, Third;
    if s != "" {
      assert s == [s[0], s[1]] + s[2..];
      if s[2..] == "" || s[2..] == "=" || s[2..] == "==" {
      } else {
        assert s == [s[0], s[1], s[2]] + s[3..];
        if s[3..] != "" && s[3..] != "=" {
          assert s == [s[0], s[1], s[2], s[3]] + s[4..];
          DecodeAlphabet(s[4..]);
        }
      }
    }
  }

  /** Regrouping three bytes into four sextets loses nothing. */
  lemma {:induction false} Regroup(x: byte, y: byte, z: byte)
    ensures First(x / 4, x % 4 * 16 + y / 16) == x
    ensures Second(x % 4 * 16 + y / 16, y % 16 * 4 + z / 64) == y
    ensures Third(y % 16 * 4 + z / 64, z % 64) == z
  {
  }

  /** Decoding a full group of four characters. */
  lemma {:induction false} DecodeGroup(p: int, q: int, r: int, t: int, rest: string)
    requires 0 <= p < 64 && 0 <= q < 64 && 0 <= r < 64 && 0 <= t < 64 && Decode(rest).Some?
    ensures Decode([Char64(p), Char64(q), Char64(r), Char64(t)] + rest)
         == Some([First(p, q), Second(q, r), Third(r, t)] + Decode(rest).value)
  {
    hide Char64, Value64, First, Second, Third, IsDigit64;
    var s := [Char64(p), Char64(q), Char64(r), Char64(t)] + rest;
    assert s[4..] == rest;
    assert !IsDigit64('=') by { PaddingIsNoDigit(); }
    assert s[2..][0] == s[2] && s[3..][0] == s[3];
    ValueOfChar(p);
    ValueOfChar(q);
    ValueOfChar(r);
    ValueOfChar(t);
  }

  lemma {:induction false} PaddingIsNoDigit()
    ensures !IsDigit64('=')
  {
  }

  /** The last group, when it stands for one byte. */
  lemma {:induction false} DecodeOne(p: int, q: int)
    requires 0 <= p < 64 && 0 <= q < 64
    ensures Decode([Char64(p), Char64(q), '=', '=']) == Some([First(p, q)])
  {
    hide Char64, Value64, First, IsDigit64;
    ValueOfChar(p);
    ValueOfChar(q);
    assert [Char64(p), Char64(q), '=', '='][2..] == "==";
  }

  /** The last group, when it stands for two bytes. */
  lemma {:induction false} DecodeTwo(p: int, q: int, r: int)
    requires 0 <= p < 64 && 0 <= q < 64 && 0 <= r < 64
    ensures Decode([Char64(p), Char64(q), Char64(r), '=']) == Some([First(p, q), Second(q, r)])
  {
    hide Char64, Value64, First, Second, IsDigit64;
    var s := [Char64(p), Char64(q), Char64(r), '='];
    assert !IsDigit64('=') by { PaddingIsNoDigit(); }
    assert s[2..][0] == s[2] && s[3..] == "=";
    ValueOfChar(p);
    ValueOfChar(q);
    ValueOfChar(r);
  }

  /** Decoding inverts encoding, for every byte string. */
  lemma {:induction false} DecodeEncode(b: seq<byte>)
    ensures Decode(Encode(b)) == Some(b)
  {
    hide Char64, Decode;
    if b == [] {
      DecodeNothing();
    } else if |b| == 1 {
      DecodeOne(b[0] / 4, b[0] % 4 * 16);
      Regroup(b[0], 0, 0);
      assert b == [b[0]];
    } else if |b| == 2 {
      DecodeTwo(b[0] / 4, b[0] % 4 * 16 + b[1] / 16, b[1] % 16 * 4);
      Regroup(b[0], b[1], 0);
      assert b == [b[0], b[1]];
    } else {
      var p, q, r, t := b[0] / 4, b[0] % 4 * 16 + b[1] / 16, b[1] % 16 * 4 + b[2] / 64, b[2] % 64;
      DecodeEncode(b[3..]);
      DecodeGroup(p, q, r, t, Encode(b[3..]));
      hide First, Second, Third;
      Regroup(b[0], b[1], b[2]);
      assert b == [b[0], b[1], b[2]] + b[3..];
    }
  }

  lemma {:induction false} DecodeNothing()
    ensures Decode("") == Some([])
  {
  }

  // ---- The encoded text, character by character ----

  /** The alphabet of section 4 of RFC 4648: upper case, lower case, digits, plus and slash. */
  function Symbol(v: int): char
    requires 0 <= v < 64
  {
    if v <= 25 then (65 + v) as char
    else if v <= 51 then (97 + v - 26) as char
    else if v <= 61 then (48 + v - 52) as char
    else if v == 62 then '+' else '/'
  }

  lemma {:induction false} CharOfValue(v: int)
    requires 0 <= v < 64
    ensures Char64(v) == Symbol(v)
  {
  }

  function At(b: seq<byte>, i: nat): int {
    if i < |b| then b[i] else 0
  }

  /** Six bits, from bit `6 * i` on, of the bytes followed by zeros. */
  function Sextet(b: seq<byte>, i: nat): int {
    var two := At(b, 6 * i / 8) * 256 + At(b, 6 * i / 8 + 1);
    if 6 * i % 8 == 0 then two / 1024 % 64
    else if 6 * i % 8 == 6 then two / 16 % 64
    else if 6 * i % 8 == 4 then two / 64 % 64
    else two / 256 % 64
  }

  /** Bytes behind the first three are read three bytes later. */
  lemma {:induction false} SextetLater(b: seq<byte>, i: nat)
    requires |b| >= 3 && i >= 4
    ensures Sextet(b, i) == Sextet(b[3..], i - 4)
  {
    assert 6 * i / 8 == 6 * (i - 4) / 8 + 3 && 6 * i % 8 == 6 * (i - 4) % 8;
    var k := 6 * (i - 4) / 8;
    assert At(b, k + 3) == At(b[3..], k) && At(b, k + 4) == At(b[3..], k + 1);
  }

  lemma {:induction false} FirstGroup(b: seq<byte>)
    requires b != []
    ensures Sextet(b, 0) == b[0] / 4
    ensures Sextet(b, 1) == b[0] % 4 * 16 + At(b, 1) / 16
    ensures Sextet(b, 2) == At(b, 1) % 16 * 4 + At(b, 2) / 64
    ensures Sextet(b, 3) == At(b, 2) % 64
  {
    Sextets(b[0], At(b, 1), At(b, 2), At(b, 3));
  }

  lemma {:induction false} Sextets(x: int, y: int, z: int, w: int)
    requires 0 <= x < 256 && 0 <= y < 256 && 0 <= z < 256 && 0 <= w < 256
    ensures (x * 256 + y) / 1024 % 64 == x / 4
    ensures (x * 256 + y) / 16 % 64 == x % 4 * 16 + y / 16
    ensures (y * 256 + z) / 64 % 64 == y % 16 * 4 + z / 64
    ensures (z * 256 + w) / 256 % 64 == z % 64
  {
    assert (x * 256 + y) / 16 == x * 16 + y / 16;
    assert (y * 256 + z) / 64 == y * 4 + z / 64;
  }

  /** Every character of the encoded text: the alphabet's at the next six bits as long as there are bits
      left, then padding up to a multiple of four. */
  lemma {:induction false} EncodeExactly(b: seq<byte>)
    ensures |Encode(b)| == (|b| + 2) / 3 * 4
    ensures forall i | 0 <= i < |Encode(b)| ::
      0 <= Sextet(b, i) < 64 && Encode(b)[i] == if 6 * i < 8 * |b| then Symbol(Sextet(b, i)) else '='
  {
    hide Char64, Symbol, Sextet;
    forall v | 0 <= v < 64 ensures Char64(v) == Symbol(v) { CharOfValue(v); }
    forall i: nat ensures 0 <= Sextet(b, i) < 64 { SextetRange(b, i); }
    if b != [] { FirstGroup(b); }
    if |b| > 3 {
      EncodeExactly(b[3..]);
      forall i | 4 <= i < |Encode(b)| ensures Sextet(b, i) == Sextet(b[3..], i - 4) { SextetLater(b, i); }
    }
  }

  lemma {:induction false} SextetRange(b: seq<byte>, i: nat)
    ensures 0 <= Sextet(b, i) < 64
  {
  }

  // ---- What is decoded ----

  /** Symbols of the alphabet, in a number that can occur, and no more padding than fits. */
  predicate WellPadded(core: string, pad: string) {
    && (forall c <- core :: IsSymbol(c))
    && |core| % 4 != 1
    && (pad == "" || (|core| % 4 == 2 && pad == "==") || (|core| % 4 >= 2 && pad == "="))
  }

  predicate IsSymbol(c: char) {
    ('A' <= c <= 'Z') || ('a' <= c <= 'z') || ('0' <= c <= '9') || c == '+' || c == '/'
  }

  function Weight(c: char): (v: int)
    requires IsSymbol(c)
    ensures 0 <= v < 64
  {
    if 'A' <= c <= 'Z' then c as int - 65
    else if 'a' <= c <= 'z' then c as int - 97 + 26
    else if '0' <= c <= '9' then c as int - 48 + 52
    else if c == '+' then 62 else 63
  }

  lemma {:induction false} WeightIsValue(c: char)
    ensures IsSymbol(c) <==> IsDigit64(c)
    ensures IsSymbol(c) ==> Weight(c) == Value64(c)
  {
  }

  /** Eight bits, from bit `8 * i` on, of the symbols' six bits each. */
  function Octet(core: string, i: nat): int
    requires (forall c <- core :: IsSymbol(c)) && 8 * i + 8 <= 6 * |core|
  {
    var k := 8 * i / 6;
    var two := Weight(core[k]) * 64 + Weight(core[k + 1]);
    if 8 * i % 6 == 0 then two / 16 % 256 else if 8 * i % 6 == 2 then two / 4 % 256 else two % 256
  }

  ghost predicate Stands(core: string, b: seq<byte>)
    requires forall c <- core :: IsSymbol(c)
  {
    |b| == 6 * |core| / 8 && forall i | 0 <= i < |b| :: b[i] == Octet(core, i)
  }

  lemma {:induction false} OctetLater(core: string, i: nat)
    requires (forall c <- core :: IsSymbol(c)) && i >= 3 && 8 * i + 8 <= 6 * |core|
    ensures (forall c <- core[4..] :: IsSymbol(c)) && Octet(core, i) == Octet(core[4..], i - 3)
  {
    assert 8 * i / 6 == 8 * (i - 3) / 6 + 4 && 8 * i % 6 == 8 * (i - 3) % 6;
    assert forall c <- core[4..] :: c in core;
  }

  lemma {:induction false} FirstOctets(core: string)
    requires forall c <- core :: IsSymbol(c)
    ensures |core| >= 2 ==> Octet(core, 0) == First(Weight(core[0]), Weight(core[1]))
    ensures |core| >= 3 ==> Octet(core, 1) == Second(Weight(core[1]), Weight(core[2]))
    ensures |core| >= 4 ==> Octet(core, 2) == Third(Weight(core[2]), Weight(core[3]))
  {
    hide Weight, First, Second, Third;
    if |core| >= 2 { FirstOctet(Weight(core[0]), Weight(core[1])); }
    if |core| >= 3 { SecondOctet(Weight(core[1]), Weight(core[2])); }
    if |core| >= 4 { ThirdOctet(Weight(core[2]), Weight(core[3])); }
  }

  lemma {:induction false} FirstOctet(p: int, q: int)
    requires 0 <= p < 64 && 0 <= q < 64
    ensures (p * 64 + q) / 16 % 256 == First(p, q)
  {
    assert (p * 64 + q) / 16 == p * 4 + q / 16;
  }

  lemma {:induction false} SecondOctet(p: int, q: int)
    requires 0 <= p < 64 && 0 <= q < 64
    ensures (p * 64 + q) / 4 % 256 == Second(p, q)
  {
    var h, l := p / 16, p % 16;
    assert (p * 64 + q) / 4 == 256 * h + (l * 16 + q / 4);
    Remainder(h, l * 16 + q / 4);
  }

  lemma {:induction false} ThirdOctet(p: int, q: int)
    requires 0 <= p < 64 && 0 <= q < 64
    ensures (p * 64 + q) % 256 == Third(p, q)
  {
    var h, l := p / 4, p % 4;
    assert p * 64 + q == 256 * h + (l * 64 + q);
    Remainder(h, l * 64 + q);
  }

  lemma {:induction false} Remainder(h: int, r: int)
    requires 0 <= r < 256
    ensures (256 * h + r) % 256 == r
  {
  }

  predicate Pad2(t: string) { t == "" || t == "=" || t == "==" }

  predicate Pad1(t: string) { t == "" || t == "=" }

  /** One step of the decoder. */
  lemma {:induction false} DecodeStep(s: string)
    ensures Decode("") == Some([])
    ensures Decode(s).Some? && s != "" ==> |s| >= 2 && IsDigit64(s[0]) && IsDigit64(s[1])
    ensures |s| >= 2 && IsDigit64(s[0]) && IsDigit64(s[1]) && Pad2(s[2..]) ==>
      Decode(s) == Some([First(Value64(s[0]), Value64(s[1]))])
  {
    hide IsDigit64, Value64, First, Second, Third;
  }

  lemma {:induction false} DecodeThird(s: string)
    requires |s| >= 2 && IsDigit64(s[0]) && IsDigit64(s[1]) && !Pad2(s[2..])
    ensures Decode(s).Some? ==> IsDigit64(s[2])
    ensures IsDigit64(s[2]) && Pad1(s[3..]) ==>
      Decode(s) == Some([First(Value64(s[0]), Value64(s[1])), Second(Value64(s[1]), Value64(s[2]))])
  {
    hide IsDigit64, Value64, First, Second, Third;
    assert s[2..][0] == s[2];
  }

  lemma {:induction false} DecodeFourth(s: string)
    requires |s| >= 3 && IsDigit64(s[0]) && IsDigit64(s[1]) && IsDigit64(s[2]) && !Pad2(s[2..]) && !Pad1(s[3..])
    ensures Decode(s).Some? ==> IsDigit64(s[3]) && Decode(s[4..]).Some?
    ensures IsDigit64(s[3]) && Decode(s[4..]).Some? ==>
      Decode(s) == Some([First(Value64(s[0]), Value64(s[1])), Second(Value64(s[1]), Value64(s[2])),
                         Third(Value64(s[2]), Value64(s[3]))] + Decode(s[4..]).value)
  {
    hide IsDigit64, Value64, First, Second, Third;
    assert s[3..][0] == s[3];
  }

  lemma {:induction false} Symbols(core: string, i: nat)
    requires (forall c <- core :: IsSymbol(c)) && i < |core|
    ensures IsSymbol(core[i]) && IsDigit64(core[i]) && Weight(core[i]) == Value64(core[i]) && core[i] != '='
  {
    assert core[i] in core;
    WeightIsValue(core[i]);
  }

  lemma {:induction false} ShortDecodes(core: string, pad: string)
    requires WellPadded(core, pad) && |core| < 4
    ensures Decode(core + pad).Some? && Stands(core, Decode(core + pad).value)
  {
    hide Decode, Weight, Value64, IsDigit64, First, Second, Third, IsSymbol, Octet;
    var s := core + pad;
    DecodeStep(s);
    FirstOctets(core);
    if core == "" {
      assert s == "";
    } else {
      Symbols(core, 0);
      Symbols(core, 1);
      assert s[0] == core[0] && s[1] == core[1];
      if |core| == 2 {
        assert s[2..] == pad;
      } else {
        Symbols(core, 2);
        assert s[2..][0] == s[2] == core[2] && s[3..] == pad;
        DecodeThird(s);
      }
    }
  }

  lemma {:induction false} GroupDecodes(core: string, pad: string)
    requires WellPadded(core, pad) && |core| >= 4 && Decode(core[4..] + pad).Some?
    ensures Decode(core + pad)
         == Some([Octet(core, 0), Octet(core, 1), Octet(core, 2)] + Decode(core[4..] + pad).value)
  {
    hide Decode, Weight, Value64, IsDigit64, First, Second, Third, IsSymbol, Octet;
    var s := core + pad;
    FirstOctets(core);
    forall i | 0 <= i < 4 ensures IsDigit64(s[i]) && Weight(core[i]) == Value64(s[i]) && s[i] != '=' {
      Symbols(core, i);
      assert s[i] == core[i];
    }
    Symbols(core, 0);
    Symbols(core, 1);
    Symbols(core, 2);
    Symbols(core, 3);
    assert s[2..][0] == s[2] && s[3..][0] == s[3];
    assert s[4..] == core[4..] + pad;
    DecodeThird(s);
    DecodeFourth(s);
  }

  lemma {:induction false} RestPadded(core: string, pad: string)
    requires WellPadded(core, pad) && |core| >= 4
    ensures WellPadded(core[4..], pad)
  {
    hide IsSymbol;
    assert forall c <- core[4..] :: c in core;
  }

  lemma {:induction false} PaddedSymbols(core: string, pad: string)
    requires WellPadded(core, pad)
    ensures forall c <- core :: IsSymbol(c)
  {
  }

  /** Symbols with some of their padding are decoded to their bits, whole bytes only. */
  lemma {:induction false} DecodesTo(core: string, pad: string)
    requires WellPadded(core, pad)
    ensures (forall c <- core :: IsSymbol(c))
    ensures Decode(core + pad).Some? && Stands(core, Decode(core + pad).value)
    decreases |core|
  {
    hide Decode, IsSymbol, Octet, Stands, WellPadded;
    PaddedSymbols(core, pad);
    if |core| < 4 {
      ShortDecodes(core, pad);
    } else {
      RestPadded(core, pad);
      PaddedSymbols(core[4..], pad);
      DecodesTo(core[4..], pad);
      GroupDecodes(core, pad);
      StandsMore(core, Decode(core[4..] + pad).value);
    }
  }

  lemma {:induction false} StandsMore(core: string, more: seq<byte>)
    requires (forall c <- core :: IsSymbol(c)) && |core| >= 4
    requires (forall c <- core[4..] :: IsSymbol(c)) && Stands(core[4..], more)
    ensures Stands(core, [Octet(core, 0), Octet(core, 1), Octet(core, 2)] + more)
  {
    hide IsSymbol, Octet;
    var b := [Octet(core, 0), Octet(core, 1), Octet(core, 2)] + more;
    forall i | 3 <= i < |b| ensures b[i] == Octet(core, i) {
      OctetLater(core, i);
      assert b[i] == more[i - 3];
    }
  }

  lemma {:induction false} DecodedShape(s: string) returns (core: string, pad: string)
    requires Decode(s).Some?
    ensures s == core + pad && WellPadded(core, pad)
    decreases |s|
  {
    hide Decode, Value64, IsDigit64, First, Second, Third, IsSymbol, Weight;
    forall c ensures IsSymbol(c) <==> IsDigit64(c) { WeightIsValue(c); }
    DecodeStep(s);
    if s == "" {
      core, pad := "", "";
    } else if Pad2(s[2..]) {
      core, pad := s[..2], s[2..];
    } else {
      DecodeThird(s);
      if Pad1(s[3..]) {
        core, pad := s[..3], s[3..];
      } else {
        DecodeFourth(s);
        var rest;
        rest, pad := DecodedShape(s[4..]);
        core := s[..4] + rest;
        assert s == s[..4] + s[4..];
      }
    }
  }

  /** Exactly what is decoded, and to what: symbols of the alphabet with all, some or none of their
      padding, and whatever bits are left over. */
  lemma {:induction false} DecodeExactly(s: string, b: seq<byte>)
    ensures Decode(s) == Some(b) <==>
      exists core, pad :: s == core + pad && WellPadded(core, pad) && Stands(core, b)
  {
    hide Decode, Octet;
    if Decode(s) == Some(b) {
      var core, pad := DecodedShape(s);
      DecodesTo(core, pad);
    }
    if core, pad :| s == core + pad && WellPadded(core, pad) && Stands(core, b) {
      DecodesTo(core, pad);
      assert Decode(s).value == b;
    }
  }
}
