/** What the parser accepts is in the grammar, and stands there for the value that is returned. */
module GrammarSound {
  import opened Wrappers
  import opened Text
  import opened StructuredFields
  import opened Grammar
  import Base64
  import Utf8
  import Percent
  import OM = OrderedMap

  lemma {:induction false} RunApart(s: string, p: char -> bool)
    ensures s == s[..Run(s, p)] + s[Run(s, p)..]
    ensures forall c <- s[..Run(s, p)] :: p(c)
  {
  }

  lemma {:induction false} SpacesApart(s: string) returns (sp: string)
    ensures s == sp + Skip(s, IsSp) && Spaces(sp)
  {
    RunApart(s, IsSp);
    sp := s[..Run(s, IsSp)];
  }

  lemma {:induction false} BlanksApart(s: string) returns (w: string)
    ensures s == w + Skip(s, IsOws) && Blanks(w)
  {
    RunApart(s, IsOws);
    w := s[..Run(s, IsOws)];
  }

  lemma {:induction false} KeySpelled(s: string)
    requires ParseKey(s).Some?
    ensures var (k, r) := ParseKey(s).value; s == k + r && Key(k)
  {
    hide Run;
    RunApart(s, KeyChar);
    var k := ParseKey(s).value.0;
    forall c <- k ensures Lower(c) || Digit(c) || c == '_' || c == '-' || c == '.' || c == '*' {
      assert KeyChar(c);
    }
    assert k[0] == s[0];
  }

  // ---- Numbers ----

  lemma {:induction false} NumIsValue(s: string)
    requires Digits(s)
    ensures forall c <- s :: IsDigit(c)
    ensures DigitsValue(s) == Num(s)
  {
    assert forall c <- s :: IsDigit(c) by { forall c <- s ensures IsDigit(c) { assert Digit(c); } }
    if s != "" { NumIsValue(s[..|s| - 1]); }
  }

  lemma {:induction false} DigitsApart(s: string)
    ensures Digits(s[..Run(s, IsDigit)])
  {
    RunApart(s, IsDigit);
    forall c <- s[..Run(s, IsDigit)] ensures Digit(c) { assert IsDigit(c); }
  }

  lemma {:induction false} FractionIsThousandths(f: string)
    requires 1 <= |f| <= 3 && Digits(f)
    ensures forall c <- f :: IsDigit(c)
    ensures FractionValue(f) == Thousandths(f)
  {
    NumIsValue(f);
    assert Num("") == 0;
    assert f[..1] == [f[0]] && Digits(f[..1]) && f[..1][..0] == "";
    assert Digit(f[0]);
    assert Num(f[..1]) == f[0] as int - '0' as int;
    if |f| == 1 {
      assert f == f[..1];
    } else {
      assert f[..2][..1] == f[..1] && Digits(f[..2]);
      assert Num(f[..2]) == Num(f[..1]) * 10 + (f[1] as int - '0' as int);
      if |f| == 2 {
        assert f == f[..2];
      } else {
        assert f == f[..3] && f[..|f| - 1] == f[..2];
      }
    }
  }

  lemma {:induction false} UnsignedSpelled(negative: bool, s: string) returns (p: string)
    requires ParseUnsigned(negative, s).Some?
    ensures var (b, r) := ParseUnsigned(negative, s).value;
            && s == p + r
            && (b.Integer? ==> IntegerText(SignText(negative) + p, b.number))
            && (b.Decimal? ==> DecimalText(SignText(negative) + p, b.thousandths))
  {
    hide ParseUnsigned, IntegerText, DecimalText;
    var n := Run(s, IsDigit);
    if n < |s| && s[n] == '.' { p := FractionSpelled(negative, s); } else { p := WholeSpelled(negative, s); }
  }

  lemma {:induction false} WholeSpelled(negative: bool, s: string) returns (p: string)
    requires ParseUnsigned(negative, s).Some? && (Run(s, IsDigit) < |s| ==> s[Run(s, IsDigit)] != '.')
    ensures var (b, r) := ParseUnsigned(negative, s).value;
            s == p + r && b.Integer? && IntegerText(SignText(negative) + p, b.number)
  {
    hide Run, DigitsValue, Pow10, ValidBare, Num, ParseFraction, IsDigit, Digits;
    var n := Run(s, IsDigit);
    RunApart(s, IsDigit);
    DigitsApart(s);
    NumIsValue(s[..n]);
    p := s[..n];
  }

  lemma {:induction false} FractionSpelled(negative: bool, s: string) returns (p: string)
    requires ParseUnsigned(negative, s).Some? && Run(s, IsDigit) < |s| && s[Run(s, IsDigit)] == '.'
    ensures var (b, r) := ParseUnsigned(negative, s).value;
            s == p + r && b.Decimal? && DecimalText(SignText(negative) + p, b.thousandths)
  {
    hide Run, DigitsValue, Pow10, ValidBare, Num, ParseFraction, IsDigit, Digits, DecimalText, Thousandths, SignText;
    var n := Run(s, IsDigit);
    RunApart(s, IsDigit);
    DigitsApart(s);
    NumIsValue(s[..n]);
    PowersOfTen();
    DigitsBound(s[..n]);
    Pow10Monotone(n, 12);
    var w := s[..n];
    var f := BehindPoint(negative, w, s[n + 1..]);
    var r := ParseFraction(negative, Num(w), s[n + 1..]).value.1;
    p := w + "." + f;
    assert s == w + "." + s[n + 1..];
    DecimalSpelled(negative, w, f);
    assert SignText(negative) + p == SignText(negative) + w + "." + f;
  }

  lemma {:induction false} DecimalSpelled(negative: bool, w: string, f: string)
    requires 1 <= |w| <= 12 && Digits(w) && 1 <= |f| <= 3 && Digits(f)
    ensures DecimalText(SignText(negative) + w + "." + f, Signed(negative, Num(w) * 1000 + Thousandths(f)))
  {
    hide Num, Thousandths, Digits, SignText, Signed;
  }

  lemma {:induction false} BehindPoint(negative: bool, w: string, s: string) returns (f: string)
    requires 1 <= |w| <= 12 && Digits(w) && 0 <= Num(w) < 1_000_000_000_000
    requires ParseFraction(negative, Num(w), s).Some?
    ensures var (b, r) := ParseFraction(negative, Num(w), s).value;
            && s == f + r && 1 <= |f| <= 3 && Digits(f)
            && b == Decimal(Signed(negative, Num(w) * 1000 + Thousandths(f)))
  {
    hide Run, Num, ValidBare, IsDigit, FractionValue, Thousandths;
    var k := Run(s, IsDigit);
    RunApart(s, IsDigit);
    DigitsApart(s);
    f := s[..k];
    FractionIsThousandths(f);
  }

  // ---- Strings ----

  lemma {:induction false} BodySpelled(s: string) returns (x: string)
    requires ParseStringBody(s).Some?
    ensures var (t, r) := ParseStringBody(s).value; s == x + "\"" + r && Body(x, t)
    decreases |s|
  {
    assert Body("", "");
    hide Body;
    if s[0] == '"' {
      x := "";
      assert s == "\"" + s[1..];
    } else {
      var escaped := s[0] == '\\';
      var front, c, rest := s[..if escaped then 2 else 1], s[if escaped then 1 else 0], s[if escaped then 2 else 1..];
      var y := BodySpelled(rest);
      var (t, r) := ParseStringBody(rest).value;
      x := front + y;
      if escaped {
        assert front == "\\" + [c];
        EscapedBody(c, y, t);
      } else {
        assert front == [c];
        PlainBody(c, y, t);
      }
      assert s == front + rest;
      Behind(front, y, r, rest);
    }
  }

  lemma {:induction false} Behind(front: string, y: string, r: string, rest: string)
    requires rest == y + "\"" + r
    ensures front + rest == (front + y) + "\"" + r
  {
  }

  lemma {:induction false} EscapedBody(c: char, y: string, t: string)
    requires Body(y, t) && (c == '"' || c == '\\')
    ensures Body("\\" + [c] + y, [c] + t)
  {
    assert ("\\" + [c] + y)[2..] == y && ([c] + t)[1..] == t;
  }

  lemma {:induction false} PlainBody(c: char, y: string, t: string)
    requires Body(y, t) && c != '"' && c != '\\' && ' ' <= c <= '~'
    ensures Body([c] + y, [c] + t)
  {
    assert ([c] + y)[1..] == y && ([c] + t)[1..] == t;
  }

  lemma {:induction false} PercentSpelled(s: string) returns (x: string)
    requires Percent.Read(s).Some?
    ensures var (b, r) := Percent.Read(s).value; s == x + "\"" + r && Bytes(x, b)
    decreases |s|
  {
    if s[0] == '"' {
      x := "";
    } else if s[0] == '%' {
      var y := PercentSpelled(s[3..]);
      x := s[..3] + y;
      assert x[3..] == y && s == s[..3] + s[3..];
      assert x[1..3] == [s[1], s[2]];
    } else {
      var y := PercentSpelled(s[1..]);
      x := s[..1] + y;
      assert x[1..] == y && s == s[..1] + s[1..];
    }
  }

  // ---- Bare items ----

  lemma {:induction false} TokenSpelled(s: string)
    requires s != "" && TokenStart(s[0])
    ensures TokenText(s[..Run(s, TokenChar)])
  {
    RunApart(s, TokenChar);
    var t := s[..Run(s, TokenChar)];
    assert Run(s, TokenChar) > 0;
    assert t[0] == s[0];
    forall c <- t ensures Letter(c) || Digit(c) || c in "!#$%&'*+-.^_`|~" || c == ':' || c == '/' {
      assert TokenChar(c);
      TokenChars(c);
    }
  }

  lemma {:induction false} TokenChars(c: char)
    ensures TokenChar(c) <==> Letter(c) || Digit(c) || c in "!#$%&'*+-.^_`|~" || c == ':' || c == '/'
  {
  }

  lemma {:induction false} DateSpelled(s: string) returns (p: string)
    requires ParseDate(s).Some?
    ensures var (b, r) := ParseDate(s).value; s == p + r && IntegerText(p, b.seconds)
  {
    hide ParseUnsigned, IntegerText, DecimalText;
    if StartsWith(s, '-') {
      var q := UnsignedSpelled(true, s[1..]);
      p := "-" + q;
      assert s == "-" + s[1..];
    } else {
      p := UnsignedSpelled(false, s);
      assert "" + p == p;
    }
  }

  lemma {:induction false} DisplaySpelled(s: string) returns (p: string)
    requires ParseDisplay(s).Some?
    ensures var (b, r) := ParseDisplay(s).value; s == p + r && DisplayText("%" + p, b.text)
  {
    hide Percent.Read, Utf8.Decode, Bytes;
    var x := PercentSpelled(s[1..]);
    p := "\"" + x + "\"";
    assert s == "\"" + s[1..];
    assert "%" + p == "%\"" + x + "\"";
  }

  lemma {:induction false} QuotedSpelled(u: string) returns (p: string)
    requires ParseStringBody(u).Some?
    ensures var (t, r) := ParseStringBody(u).value; "\"" + u == p + r && BareText(p, String(t))
  {
    hide ParseStringBody, Body;
    var x := BodySpelled(u);
    p := "\"" + x + "\"";
  }

  lemma {:induction false} ColonSpelled(u: string) returns (p: string)
    requires SplitOnce(u, ':').Some? && Base64.Decode(SplitOnce(u, ':').value.0).Some?
    ensures var t := SplitOnce(u, ':').value;
            ":" + u == p + t.1 && BareText(p, ByteSequence(Base64.Decode(t.0).value))
  {
    hide SplitOnce, Base64.Decode;
    var t := SplitOnce(u, ':').value;
    p := ":" + t.0 + ":";
  }

  lemma {:induction false} NumberSpelled(negative: bool, u: string) returns (p: string)
    requires ParseUnsigned(negative, u).Some?
    ensures var (b, r) := ParseUnsigned(negative, u).value; SignText(negative) + u == p + r && BareText(p, b)
  {
    hide ParseUnsigned, IntegerText, DecimalText;
    var x := UnsignedSpelled(negative, u);
    p := SignText(negative) + x;
  }

  lemma {:induction false} AtSpelled(u: string) returns (p: string)
    requires ParseDate(u).Some?
    ensures var (b, r) := ParseDate(u).value; "@" + u == p + r && BareText(p, b)
  {
    hide ParseDate, IntegerText;
    var x := DateSpelled(u);
    p := "@" + x;
  }

  lemma {:induction false} PercentSignSpelled(u: string) returns (p: string)
    requires ParseDisplay(u).Some?
    ensures var (b, r) := ParseDisplay(u).value; "%" + u == p + r && BareText(p, b)
  {
    hide ParseDisplay, DisplayText;
    var x := DisplaySpelled(u);
    p := "%" + x;
  }

  lemma {:induction false} BareSpelled(s: string) returns (p: string)
    requires ParseBare(s).Some?
    ensures var (b, r) := ParseBare(s).value; s == p + r && BareText(p, b)
  {
    hide ParseUnsigned, ParseStringBody, ParseDate, ParseDisplay, SplitOnce, Base64.Decode, Run, ValidBare;
    var u := s[1..];
    assert s == [s[0]] + u;
    if s[0] == '?' {
      p := s[..2];
      assert s == s[..2] + s[2..];
      assert p == if s[1] == '1' then "?1" else "?0";
    } else if s[0] != '"' && s[0] != ':' && s[0] != '@' && s[0] != '%' && s[0] != '-' && !IsDigit(s[0]) {
      RunApart(s, TokenChar);
      TokenSpelled(s);
      p := s[..Run(s, TokenChar)];
    } else {
      hide BareText, TokenText;
      if s[0] == '"' {
        p := QuotedSpelled(u);
      } else if s[0] == ':' {
        p := ColonSpelled(u);
      } else if s[0] == '@' {
        p := AtSpelled(u);
      } else if s[0] == '%' {
        p := PercentSignSpelled(u);
      } else if s[0] == '-' {
        p := NumberSpelled(true, u);
      } else {
        p := NumberSpelled(false, s);
        assert SignText(false) + s == s;
      }
    }
  }

  // ---- Parameters and items ----

  lemma {:induction false} ValueSpelled(s: string) returns (p: string)
    requires ParseParamValue(s).Some?
    ensures var (v, r) := ParseParamValue(s).value; s == p + r && ValueText(p, v)
  {
    hide ParseBare, BareText;
    if StartsWith(s, '=') {
      var x := BareSpelled(s[1..]);
      p := "=" + x;
      assert s == "=" + s[1..];
      assert p[1..] == x;
    } else {
      p := "";
    }
  }

  lemma {:induction false} RawCons(a: string, q: (string, BareItem), b: string, raw: Parameters)
    requires ParamText(a, q) && RawParams(b, raw)
    ensures RawParams(a + b, [q] + raw)
    ensures forall acc: Parameters :: OM.PutAll(acc, [q] + raw) == OM.PutAll(OM.Put(acc, q.0, q.1), raw)
  {
    hide ParamText, OM.Put;
    assert ([q] + raw)[1..] == raw;
  }

  lemma {:induction false} OneSpelled(s: string) returns (a: string)
    requires StartsWith(s, ';') && ParseKey(Skip(s[1..], IsSp)).Some?
    requires ParseParamValue(ParseKey(Skip(s[1..], IsSp)).value.1).Some?
    ensures var k := ParseKey(Skip(s[1..], IsSp)).value;
            var v := ParseParamValue(k.1).value;
            s == a + v.1 && ParamText(a, (k.0, v.0))
  {
    hide ParseKey, ParseParamValue, Skip, ValueText, Key;
    var sp := SpacesApart(s[1..]);
    var t := Skip(s[1..], IsSp);
    KeySpelled(t);
    var k := ParseKey(t).value;
    var x := ValueSpelled(k.1);
    a := ";" + sp + k.0 + x;
    assert s == ";" + s[1..];
  }

  lemma {:induction false} RawSpelled(s: string, acc: Parameters) returns (p: string, raw: Parameters)
    requires ParseParams(s, acc).Some?
    ensures var (ps, r) := ParseParams(s, acc).value; s == p + r && RawParams(p, raw) && ps == OM.PutAll(acc, raw)
    decreases |s|
  {
    hide ParseKey, ParseParamValue, Skip, ParamText, OM.Put;
    if StartsWith(s, ';') {
      var a := OneSpelled(s);
      var k := ParseKey(Skip(s[1..], IsSp)).value;
      var v := ParseParamValue(k.1).value;
      var q, more := RawSpelled(v.1, OM.Put(acc, k.0, v.0));
      RawCons(a, (k.0, v.0), q, more);
      p, raw := a + q, [(k.0, v.0)] + more;
    } else {
      p, raw := "", [];
    }
  }

  lemma {:induction false} ParamsSpelled(s: string) returns (p: string)
    requires ParseParams(s, []).Some?
    ensures var (ps, r) := ParseParams(s, []).value; s == p + r && ParamsText(p, ps)
  {
    hide ParseParams, RawParams, OM.PutAll;
    var raw: Parameters;
    p, raw := RawSpelled(s, []);
  }

  lemma {:induction false} ItemSpelled(s: string) returns (p: string)
    requires ParseItem(s).Some?
    ensures var (i, r) := ParseItem(s).value; s == p + r && ItemText(p, i)
  {
    hide ParseBare, ParseParams, BareText, ParamsText;
    var a := BareSpelled(s);
    var b := ParamsSpelled(ParseBare(s).value.1);
    p := a + b;
  }

  lemma {:induction false} ItemsSpelled(s: string) returns (p: string)
    requires ParseItems(s).Some?
    ensures var (items, r) := ParseItems(s).value; s == p + r && p != "" && ItemsText(p, items)
    decreases |s|
  {
    hide ParseItem, Skip, ItemText;
    var sp := SpacesApart(s);
    var t := Skip(s, IsSp);
    if t[0] == ')' {
      p := sp + ")";
      assert t == ")" + t[1..];
    } else {
      var a := ItemSpelled(t);
      var i := ParseItem(t).value;
      var b := ItemsSpelled(i.1);
      var rest := ParseItems(i.1).value;
      p := sp + a + b;
      assert s == sp + (a + (b + rest.1));
      assert b[0] == i.1[0];
      assert ([i.0] + rest.0)[1..] == rest.0;
    }
  }

  lemma {:induction false} EntrySpelled(s: string) returns (p: string)
    requires ParseEntry(s).Some?
    ensures var (e, r) := ParseEntry(s).value; s == p + r && EntryText(p, e)
  {
    hide ParseItems, ParseParams, ParseItem, ItemText, ItemsText, ParamsText;
    if StartsWith(s, '(') {
      var a := ItemsSpelled(s[1..]);
      var b := ParamsSpelled(ParseItems(s[1..]).value.1);
      p := "(" + a + b;
      assert s == "(" + s[1..];
    } else {
      p := ItemSpelled(s);
    }
  }

  // ---- Members ----

  lemma {:induction false} TailSpelled(s: string) returns (p: string)
    requires if StartsWith(s, '=') then ParseEntry(s[1..]).Some? else ParseParams(s, []).Some?
    ensures if StartsWith(s, '=') then
              var (e, r) := ParseEntry(s[1..]).value; s == p + r && TailText(p, e)
            else
              var (ps, r) := ParseParams(s, []).value; s == p + r && TailText(p, ItemEntry(Item(Boolean(true), ps)))
  {
    hide ParseEntry, ParseParams, EntryText;
    if StartsWith(s, '=') {
      var x := EntrySpelled(s[1..]);
      p := "=" + x;
      assert s == "=" + s[1..];
      assert p[1..] == x;
    } else {
      p := ParamsSpelled(s);
      ParamsNoEquals(p, ParseParams(s, []).value.0);
    }
  }

  lemma {:induction false} ParamsNoEquals(s: string, ps: Parameters)
    requires ParamsText(s, ps)
    ensures s != "" ==> s[0] == ';'
  {
    var raw :| RawParams(s, raw) && ps == OM.PutAll([], raw);
    RawStart(s, raw);
  }

  lemma {:induction false} RawStart(s: string, raw: Parameters)
    requires RawParams(s, raw)
    ensures if raw == [] then s == "" else s != "" && s[0] == ';'
  {
    hide ValueText, Key;
    if raw != [] {
      var a, b :| s == a + b && ParamText(a, raw[0]) && RawParams(b, raw[1..]);
    }
  }

  lemma {:induction false} MemberSpelled(asDict: bool, s: string) returns (p: string)
    requires ParseMember(asDict, s).Some?
    ensures var (m, r) := ParseMember(asDict, s).value; s == p + r && MemberText(asDict, p, m)
  {
    hide ParseEntry, ParseParams, ParseKey, EntryText, TailText, Key;
    if !asDict {
      p := EntrySpelled(s);
    } else {
      KeySpelled(s);
      var k := ParseKey(s).value;
      var x := TailSpelled(k.1);
      p := k.0 + x;
    }
  }

  lemma {:induction false} MembersSpelled(asDict: bool, s: string)
    requires ParseMembers(asDict, s).Some? && s != ""
    ensures MembersText(asDict, s, ParseMembers(asDict, s).value)
    decreases |s|
  {
    hide ParseMember, Skip, MemberText;
    var a := MemberSpelled(asDict, s);
    var m := ParseMember(asDict, s).value;
    var w := BlanksApart(m.1);
    var r := Skip(m.1, IsOws);
    if r == "" {
      assert s == a + w;
      assert [m.0][0] == m.0;
    } else {
      var x := BlanksApart(r[1..]);
      var t := Skip(r[1..], IsOws);
      MembersSpelled(asDict, t);
      var ms := ParseMembers(asDict, t).value;
      assert r == "," + r[1..];
      assert s == a + w + "," + x + t;
      assert ([m.0] + ms)[1..] == ms;
    }
  }

  lemma {:induction false} ListSpelled(s: string)
    requires ParseList(s).Some?
    ensures ListText(s, ParseList(s).value)
  {
    hide Skip, MembersText;
    var sp := SpacesApart(s);
    var t := Skip(s, IsSp);
    if t != "" {
      MembersSpelled(false, t);
      NoKeys(t);
    }
  }

  lemma {:induction false} NoKeys(t: string)
    requires ParseMembers(false, t).Some? && t != ""
    ensures var ms := ParseMembers(false, t).value; ms != [] && AsMembers(Entries(ms)) == ms
    decreases |t|
  {
    hide ParseEntry, Skip;
    var m := ParseMember(false, t).value;
    var r := Skip(m.1, IsOws);
    if r != "" {
      NoKeys(Skip(r[1..], IsOws));
      var rest := ParseMembers(false, Skip(r[1..], IsOws)).value;
      var ms := ParseMembers(false, t).value;
      assert ms == [m.0] + rest;
      forall i | 0 <= i < |ms| ensures AsMembers(Entries(ms))[i] == ms[i] {
        if i > 0 { assert AsMembers(Entries(rest))[i - 1] == rest[i - 1]; }
      }
    }
  }

  lemma {:induction false} DictionarySpelled(s: string)
    requires ParseDictionary(s).Some?
    ensures DictionaryText(s, ParseDictionary(s).value)
  {
    hide Skip, MembersText, OM.PutAll, ParseMember;
    var sp := SpacesApart(s);
    var t := Skip(s, IsSp);
    var raw := ParseMembers(true, t).value;
    if t != "" { MembersSpelled(true, t); }
  }

  lemma {:induction false} ItemFieldSpelled(s: string)
    requires ParseItemField(s).Some?
    ensures ItemFieldText(s, ParseItemField(s).value)
  {
    hide Skip, ParseItem, ItemText;
    var a := SpacesApart(s);
    var t := Skip(s, IsSp);
    var p := ItemSpelled(t);
    var b := SpacesApart(ParseItem(t).value.1);
    assert s == a + p + b;
  }
}
