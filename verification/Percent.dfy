/** The body of a display string: bytes, some of them percent-encoded, up to a quotation mark. */
module Percent {
  import opened Wrappers
  import opened Text

  predicate IsHex(c: char) { '0' <= c <= '9' || 'a' <= c <= 'f' }

  function HexDigit(v: int): (c: char)
    requires 0 <= v < 16
    ensures IsHex(c) && HexValue(c) == v
  {
    if v < 10 then ('0' as int + v) as char else ('a' as int + v - 10) as char
  }

  function HexValue(c: char): (v: int)
    requires IsHex(c)
    ensures 0 <= v < 16
  {
    if c <= '9' then c as int - '0' as int else c as int - 'a' as int + 10
  }

  /** Control characters, bytes that are not ASCII, the percent sign and the quotation mark. */
  predicate Encoded(b: byte) {
    b < 0x20 || b >= 0x7F || b == 0x25 || b == 0x22
  }

  function EncodeByte(b: byte): string {
    if Encoded(b) then ['%', HexDigit(b / 16), HexDigit(b % 16)] else [b as char]
  }

  function Encode(bs: seq<byte>): string {
    if bs == [] then "" else EncodeByte(bs[0]) + Encode(bs[1..])
  }

  predicate IsPlainByte(c: char) { ' ' <= c <= '~' }

  /** Reads up to the closing quotation mark; hexadecimal digits are lower case. */
  function Read(s: string): (r: Option<(seq<byte>, string)>)
    ensures r.Some? ==> |r.value.1| < |s|
    decreases |s|
  {
    if s == "" then None
    else if s[0] == '"' then Some(([], s[1..]))
    else if s[0] == '%' then
      if |s| >= 3 && IsHex(s[1]) && IsHex(s[2]) then
        var t :- Read(s[3..]);
        Some(([HexValue(s[1]) * 16 + HexValue(s[2])] + t.0, t.1))
      else None
    else if !IsPlainByte(s[0]) then None
    else
      var t :- Read(s[1..]);
      Some(([s[0] as int] + t.0, t.1))
  }

  lemma {:induction false} ReadByte(b: byte, s: string)
    requires Read(s).Some?
    ensures Read(EncodeByte(b) + s) == Some(([b] + Read(s).value.0, Read(s).value.1))
  {
    hide HexDigit, HexValue, IsHex;
    var t := EncodeByte(b) + s;
    if Encoded(b) {
      assert t[3..] == s;
    } else {
      assert t[1..] == s;
    }
  }

  /** Reading inverts encoding. */
  lemma {:induction false} ReadEncode(bs: seq<byte>, rest: string)
    ensures Read(Encode(bs) + "\"" + rest) == Some((bs, rest))
  {
    hide EncodeByte;
    if bs == [] {
      assert (Encode(bs) + "\"" + rest)[1..] == rest;
    } else {
      ReadEncode(bs[1..], rest);
      ReadByte(bs[0], Encode(bs[1..]) + "\"" + rest);
      assert Encode(bs) + "\"" + rest == EncodeByte(bs[0]) + (Encode(bs[1..]) + "\"" + rest);
      assert bs == [bs[0]] + bs[1..];
    }
  }

  lemma {:induction false} EncodePrintable(bs: seq<byte>)
    ensures forall c <- Encode(bs) :: IsPlainByte(c)
  {
    if bs != [] {
      EncodePrintable(bs[1..]);
      assert forall c <- EncodeByte(bs[0]) :: IsPlainByte(c);
    }
  }
}
