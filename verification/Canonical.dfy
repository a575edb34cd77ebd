/** The serialised form, written out (RFC 9651, section 4.1). */
module Canonical {
  import opened Wrappers
  import opened Text
  import opened StructuredFields
  import Grammar
  import GrammarSound
  import RT = StructuredFieldsRoundTrip
  import Base64
  import Utf8
  import Percent

  function Minus(n: int): string {
    if n < 0 then "-" else ""
  }

  function Size(n: int): nat {
    if n < 0 then -n else n
  }

  /** Digits behind the point: at least one, and no zero at the end of several. */
  predicate Fraction(f: string) {
    && 1 <= |f| <= 3
    && (forall c <- f :: '0' <= c <= '9')
    && (|f| > 1 ==> f[|f| - 1] != '0')
  }

  lemma {:induction false} FractionWritten(f: nat)
    requires f < 1000
    ensures Fraction(SerFraction(f)) && Grammar.Digits(SerFraction(f)) && Grammar.Thousandths(SerFraction(f)) == f
  {
    hide FractionValue, Grammar.Thousandths;
    var s := SerFraction(f);
    RT.FractionRead(f);
    forall c <- s ensures Grammar.Digit(c) { assert IsDigit(c); }
    GrammarSound.FractionIsThousandths(s);
  }

  /** Escapes stand in front of quotation marks and backslashes, and nowhere else. */
  lemma {:induction false} EscapeWritten(s: string, c: char)
    ensures Escape("") == ""
    ensures Escape([c] + s) == (if c == '"' || c == '\\' then "\\" + [c] else [c]) + Escape(s)
  {
    assert ([c] + s)[1..] == s;
    assert "\\" + [c] == ['\\', c];
  }

  /** In display strings, bytes that are printable, and neither percent signs nor quotation marks, stand
      for themselves; others are written as two lower-case hexadecimal digits behind a percent sign. */
  lemma {:induction false} PercentWritten(b: byte, bs: seq<byte>)
    ensures Percent.Encode([]) == ""
    ensures 0x20 <= b <= 0x7E && b != '%' as int && b != '"' as int ==>
      Percent.Encode([b] + bs) == [b as char] + Percent.Encode(bs)
    ensures !(0x20 <= b <= 0x7E && b != '%' as int && b != '"' as int) ==>
      Percent.Encode([b] + bs) == ['%', "0123456789abcdef"[b / 16], "0123456789abcdef"[b % 16]] + Percent.Encode(bs)
  {
    assert ([b] + bs)[1..] == bs;
    HexWritten(b / 16);
    HexWritten(b % 16);
    hide Percent.HexDigit;
  }

  lemma {:induction false} HexWritten(v: int)
    requires 0 <= v < 16
    ensures Percent.HexDigit(v) == "0123456789abcdef"[v]
  {
    var s := "0123456789abcdef";
    assert s[0] == '0' && s[1] == '1' && s[2] == '2' && s[3] == '3' && s[4] == '4' && s[5] == '5' && s[6] == '6';
    assert s[7] == '7' && s[8] == '8' && s[9] == '9' && s[10] == 'a' && s[11] == 'b' && s[12] == 'c' && s[13] == 'd';
    assert s[14] == 'e' && s[15] == 'f';
  }

  /** Bare items. */
  lemma {:induction false} BareWritten(n: int, t: string, v: seq<byte>)
    ensures SerBare(Integer(n)) == Minus(n) + PrintNat(Size(n))
    ensures SerBare(Date(n)) == "@" + Minus(n) + PrintNat(Size(n))
    ensures SerBare(Decimal(n)) == Minus(n) + PrintNat(Size(n) / 1000) + "." + SerFraction(Size(n) % 1000)
    ensures SerBare(String(t)) == "\"" + Escape(t) + "\""
    ensures SerBare(Token(t)) == t
    ensures SerBare(ByteSequence(v)) == ":" + Base64.Encode(v) + ":"
    ensures SerBare(Boolean(true)) == "?1" && SerBare(Boolean(false)) == "?0"
    ensures SerBare(DisplayString(t)) == "%\"" + Percent.Encode(Utf8.Encode(t)) + "\""
  {
    hide PrintNat, SerFraction, Escape, Base64.Encode, Percent.Encode, Utf8.Encode;
  }

  ghost predicate Writes(p: (string, BareItem), s: string) {
    s == if p.1 == Boolean(true) then ";" + p.0 else ";" + p.0 + "=" + SerBare(p.1)
  }

  /** Parameters: nothing between them but semicolons, and no value for `true`. */
  lemma {:induction false} ParamsWritten(ps: Parameters, texts: seq<string>)
    requires |texts| == |ps| && forall i | 0 <= i < |ps| :: Writes(ps[i], texts[i])
    ensures SerParams(ps) == Join(texts, "")
  {
    hide SerBare;
    if ps != [] {
      ParamsWritten(ps[1..], texts[1..]);
      assert Writes(ps[0], texts[0]);
      assert SerParam(ps[0]) == texts[0];
      if |texts| == 1 { assert SerParams(ps[1..]) == ""; }
    }
  }

  /** Items of an inner list: one space between two. */
  lemma {:induction false} ItemsWritten(items: seq<Item>, texts: seq<string>)
    requires |texts| == |items|
    requires forall i | 0 <= i < |items| :: texts[i] == SerBare(items[i].bare) + SerParams(items[i].params)
    ensures SerItems(items) == Join(texts, " ")
  {
    hide SerBare, SerParams;
    if |items| > 1 { ItemsWritten(items[1..], texts[1..]); }
  }

  ghost predicate WritesEntry(e: ListEntry, s: string) {
    match e
    case ItemEntry(i) => s == SerBare(i.bare) + SerParams(i.params)
    case InnerEntry(l) => s == "(" + SerItems(l.items) + ")" + SerParams(l.params)
  }

  lemma {:induction false} EntryWritten(e: ListEntry)
    ensures WritesEntry(e, SerEntry(e))
  {
    hide SerBare, SerParams, SerItems;
  }

  /** Lists: a comma and one space between two members; nothing for an empty list. */
  lemma {:induction false} ListWritten(l: List, texts: seq<string>)
    requires |texts| == |l| && forall i | 0 <= i < |l| :: WritesEntry(l[i], texts[i])
    ensures SerList(l) == if l == [] then None else Some(Join(texts, ", "))
  {
    hide WritesEntry, SerEntry, SerMembers;
    forall i | 0 <= i < |l| ensures SerMember(false, AsMembers(l)[i]) == texts[i] {
      OneText(l[i], texts[i]);
    }
    MembersWritten(false, AsMembers(l), texts);
  }

  lemma {:induction false} OneText(e: ListEntry, s: string)
    requires WritesEntry(e, s)
    ensures s == SerEntry(e)
  {
    hide SerBare, SerParams, SerItems;
  }

  lemma {:induction false} MembersWritten(asDict: bool, ms: seq<(string, ListEntry)>, texts: seq<string>)
    requires |texts| == |ms| && forall i | 0 <= i < |ms| :: SerMember(asDict, ms[i]) == texts[i]
    ensures SerMembers(asDict, ms) == Join(texts, ", ")
  {
    hide SerMember;
    if |ms| > 1 { MembersWritten(asDict, ms[1..], texts[1..]); }
  }

  /** `key=entry`, or the key alone with its parameters for `true`. */
  ghost predicate WritesMember(m: (string, ListEntry), s: string) {
    if m.1.ItemEntry? && m.1.item.bare == Boolean(true) then s == m.0 + SerParams(m.1.item.params)
    else exists x :: s == m.0 + "=" + x && WritesEntry(m.1, x)
  }

  /** Dictionaries: in their order, with a comma and one space between two members. */
  lemma {:induction false} DictionaryWritten(d: Dictionary, texts: seq<string>)
    requires |texts| == |d| && forall i | 0 <= i < |d| :: WritesMember(d[i], texts[i])
    ensures SerDictionary(d) == if d == [] then None else Some(Join(texts, ", "))
  {
    hide WritesMember, SerMember, SerMembers;
    forall i | 0 <= i < |d| ensures SerMember(true, d[i]) == texts[i] { OneMember(d[i], texts[i]); }
    MembersWritten(true, d, texts);
  }

  lemma {:induction false} OneMember(m: (string, ListEntry), s: string)
    requires WritesMember(m, s)
    ensures SerMember(true, m) == s
  {
    hide WritesEntry, SerEntry, SerParams;
    if !(m.1.ItemEntry? && m.1.item.bare == Boolean(true)) {
      var x :| s == m.0 + "=" + x && WritesEntry(m.1, x);
      OneText(m.1, x);
    }
  }
}
