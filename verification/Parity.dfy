/** Text that does not parse is not repaired by values that are joined to it.  It may leave a string
    open, and what is joined may close that string; but what is joined holds no backslash and an even
    number of quotation marks, so that the whole ends inside a string. */
module Parity {
  import opened Wrappers
  import opened Text
  import opened StructuredFields
  import opened Escaping
  import SFJ = StructuredFieldsJoin
  import Base64
  import Utf8
  import Percent
  import OM = OrderedMap

  predicate Quiet(s: string) {
    '\\' !in s
  }

  predicate Even(s: string) {
    Marks('"', s) % 2 == 0
  }

  /** `r` is without backslashes and has the parity of `s`. */
  predicate Kept(s: string, r: string) {
    Quiet(r) && (Even(r) <==> Even(s))
  }

  predicate Flipped(s: string, r: string) {
    Quiet(r) && (Even(r) <==> !Even(s))
  }

  // ---- Without backslashes, parsers read whole strings ----

  lemma {:induction false} DropKeeps(s: string, n: nat)
    requires Quiet(s) && n <= |s| && '"' !in s[..n]
    ensures Kept(s, s[n..])
  {
    assert s == s[..n] + s[n..];
    MarksAppend('"', s[..n], s[n..]);
    NoMarks('"', s[..n]);
  }

  lemma {:induction false} OneKeeps(s: string)
    requires Quiet(s) && s != "" && s[0] != '"'
    ensures Kept(s, s[1..])
  {
    hide Marks;
    DropKeeps(s, 1);
  }

  lemma {:induction false} QuoteFlips(s: string)
    requires Quiet(s) && s != "" && s[0] == '"'
    ensures Flipped(s, s[1..])
  {
  }

  lemma {:induction false} RunKeeps(s: string, p: char -> bool)
    requires Quiet(s) && !p('"')
    ensures Kept(s, s[Run(s, p)..])
  {
    hide Marks, Run;
    DropKeeps(s, Run(s, p));
  }

  lemma {:induction false} SkipKeeps(s: string, p: char -> bool)
    requires Quiet(s) && !p('"')
    ensures Kept(s, Skip(s, p))
  {
    hide Kept, Run;
    RunKeeps(s, p);
  }

  lemma {:induction false} BodyFlips(s: string)
    requires Quiet(s) && ParseStringBody(s).Some?
    ensures Flipped(s, ParseStringBody(s).value.1)
    decreases |s|
  {
    hide Marks;
    assert s[0] in s;
    if s[0] == '"' {
      QuoteFlips(s);
    } else {
      OneKeeps(s);
      BodyFlips(s[1..]);
    }
  }

  lemma {:induction false} PercentFlips(s: string)
    requires Quiet(s) && Percent.Read(s).Some?
    ensures Flipped(s, Percent.Read(s).value.1)
    decreases |s|
  {
    hide Marks;
    if s[0] == '"' {
      QuoteFlips(s);
    } else if s[0] == '%' {
      DropKeeps(s, 3);
      PercentFlips(s[3..]);
    } else {
      OneKeeps(s);
      PercentFlips(s[1..]);
    }
  }

  lemma {:induction false} DisplayKeeps(s: string)
    requires Quiet(s) && ParseDisplay(s).Some?
    ensures Kept(s, ParseDisplay(s).value.1)
  {
    hide Marks, Percent.Read, Utf8.Decode;
    QuoteFlips(s);
    PercentFlips(s[1..]);
  }

  lemma {:induction false} UnsignedKeeps(negative: bool, s: string)
    requires Quiet(s) && ParseUnsigned(negative, s).Some?
    ensures Kept(s, ParseUnsigned(negative, s).value.1)
  {
    hide Run, DigitsValue, FractionValue, Pow10, ValidBare, Kept;
    var n := Run(s, IsDigit);
    assert !IsDigit('"');
    RunKeeps(s, IsDigit);
    assert Kept(s, s[n..]) ==> Quiet(s[n..]) by { KeptIsQuiet(s, s[n..]); }
    if s[n..] != "" && s[n] == '.' {
      OneKeeps(s[n..]);
      assert s[n..][1..] == s[n + 1..];
      KeptTwice(s, s[n..], s[n + 1..]);
      KeptIsQuiet(s, s[n + 1..]);
      RunKeeps(s[n + 1..], IsDigit);
      KeptTwice(s, s[n + 1..], s[n + 1..][Run(s[n + 1..], IsDigit)..]);
    }
  }

  lemma {:induction false} KeptIsQuiet(s: string, r: string)
    ensures Kept(s, r) ==> Quiet(r)
  {
  }

  lemma {:induction false} KeptTwice(a: string, b: string, c: string)
    requires Kept(a, b) && Kept(b, c)
    ensures Kept(a, c)
  {
  }

  lemma {:induction false} DateKeeps(s: string)
    requires Quiet(s) && ParseDate(s).Some?
    ensures Kept(s, ParseDate(s).value.1)
  {
    hide ParseUnsigned, Marks;
    if StartsWith(s, '-') {
      OneKeeps(s);
      UnsignedKeeps(true, s[1..]);
    } else {
      UnsignedKeeps(false, s);
    }
  }

  lemma {:induction false} BytesKeep(s: string)
    requires Quiet(s) && SplitOnce(s, ':').Some? && Base64.Decode(SplitOnce(s, ':').value.0).Some?
    ensures Kept(s, SplitOnce(s, ':').value.1)
  {
    hide Marks, SplitOnce, Base64.Decode;
    var t := SplitOnce(s, ':').value;
    Base64.DecodeAlphabet(t.0);
    Base64.PaddingIsNoDigit();
    var n := |t.0| + 1;
    assert s == t.0 + [':'] + t.1;
    assert s[..n] == t.0 + [':'] && s[n..] == t.1;
    DropKeeps(s, n);
  }

  lemma {:induction false} BareKeeps(s: string)
    requires Quiet(s) && ParseBare(s).Some?
    ensures Kept(s, ParseBare(s).value.1)
  {
    hide Marks, ParseUnsigned, ParseStringBody, ParseDate, ParseDisplay, SplitOnce, Base64.Decode, Run, ValidBare;
    var u := s[1..];
    if s[0] == '"' {
      QuoteFlips(s);
      BodyFlips(u);
    } else if s[0] == '?' {
      DropKeeps(s, 2);
    } else if s[0] == '-' || s[0] == ':' || s[0] == '@' || s[0] == '%' {
      OneKeeps(s);
      if s[0] == '-' {
        UnsignedKeeps(true, u);
      } else if s[0] == ':' {
        BytesKeep(u);
      } else if s[0] == '@' {
        DateKeeps(u);
      } else {
        DisplayKeeps(u);
      }
    } else if IsDigit(s[0]) {
      UnsignedKeeps(false, s);
    } else {
      assert !TokenChar('"') by { QuoteEndsTokens(); }
      RunKeeps(s, TokenChar);
    }
  }

  lemma {:induction false} QuoteEndsTokens()
    ensures !TokenChar('"') && !KeyChar('"') && !TokenChar(',') && !KeyChar(',')
  {
  }

  lemma {:induction false} KeyKeeps(s: string)
    requires Quiet(s) && ParseKey(s).Some?
    ensures Kept(s, ParseKey(s).value.1)
  {
    hide Kept, Run;
    QuoteEndsTokens();
    RunKeeps(s, KeyChar);
  }

  lemma {:induction false} ValueKeeps(s: string)
    requires Quiet(s) && ParseParamValue(s).Some?
    ensures Kept(s, ParseParamValue(s).value.1)
  {
    hide ParseBare, Marks;
    if StartsWith(s, '=') {
      OneKeeps(s);
      BareKeeps(s[1..]);
    }
  }

  lemma {:induction false} ParamsKeep(s: string, acc: Parameters)
    requires Quiet(s) && ParseParams(s, acc).Some?
    ensures Kept(s, ParseParams(s, acc).value.1)
    decreases |s|
  {
    hide ParseKey, ParseParamValue, Marks, Skip;
    if StartsWith(s, ';') {
      OneKeeps(s);
      SkipKeeps(s[1..], IsSp);
      var t := Skip(s[1..], IsSp);
      var k := ParseKey(t).value;
      KeyKeeps(t);
      ValueKeeps(k.1);
      var v := ParseParamValue(k.1).value;
      ParamsKeep(v.1, OM.Put(acc, k.0, v.0));
    }
  }

  lemma {:induction false} ItemKeeps(s: string)
    requires Quiet(s) && ParseItem(s).Some?
    ensures Kept(s, ParseItem(s).value.1)
  {
    hide ParseBare, ParseParams, Marks;
    BareKeeps(s);
    ParamsKeep(ParseBare(s).value.1, []);
  }

  lemma {:induction false} ItemsKeep(s: string)
    requires Quiet(s) && ParseItems(s).Some?
    ensures Kept(s, ParseItems(s).value.1)
    decreases |s|
  {
    hide ParseItem, Marks, Run, Skip;
    SkipKeeps(s, IsSp);
    var t := Skip(s, IsSp);
    if t[0] == ')' {
      OneKeeps(t);
    } else {
      ItemKeeps(t);
      ItemsKeep(ParseItem(t).value.1);
    }
  }

  lemma {:induction false} EntryKeeps(s: string)
    requires Quiet(s) && ParseEntry(s).Some?
    ensures Kept(s, ParseEntry(s).value.1)
  {
    hide ParseItems, ParseParams, ParseItem, Marks;
    if StartsWith(s, '(') {
      OneKeeps(s);
      ItemsKeep(s[1..]);
      ParamsKeep(ParseItems(s[1..]).value.1, []);
    } else {
      ItemKeeps(s);
    }
  }

  lemma {:induction false} MemberKeeps(asDict: bool, s: string)
    requires Quiet(s) && ParseMember(asDict, s).Some?
    ensures Kept(s, ParseMember(asDict, s).value.1)
  {
    hide ParseEntry, ParseParams, ParseKey, Marks;
    if !asDict {
      EntryKeeps(s);
    } else {
      KeyKeeps(s);
      var k := ParseKey(s).value;
      if StartsWith(k.1, '=') {
        OneKeeps(k.1);
        EntryKeeps(k.1[1..]);
      } else {
        ParamsKeep(k.1, []);
      }
    }
  }

  /** Text that parses and has no backslash has an even number of quotation marks. */
  lemma {:induction false} MembersEven(asDict: bool, s: string)
    requires Quiet(s) && ParseMembers(asDict, s).Some?
    ensures Even(s)
    decreases |s|
  {
    hide ParseMember, Marks, Skip;
    if s == "" {
      NoMarks('"', "");
    } else {
      MemberKeeps(asDict, s);
      var m := ParseMember(asDict, s).value;
      SkipKeeps(m.1, IsOws);
      var r := Skip(m.1, IsOws);
      if r == "" {
        NoMarks('"', "");
      } else {
        OneKeeps(r);
        SkipKeeps(r[1..], IsOws);
        MembersEven(asDict, Skip(r[1..], IsOws));
      }
    }
  }

  // ---- Reading into what follows a comma ----

  /** What is joined: it starts with a comma and holds no backslash. */
  predicate Tail(t: string) {
    StartsWith(t, ',') && Quiet(t)
  }

  lemma {:induction false} BodyAcross(s: string, t: string)
    requires Tail(t) && ParseStringBody(s + t).Some?
    ensures ParseStringBody(s).Some? || Flipped(t, ParseStringBody(s + t).value.1)
    decreases |s|
  {
    hide Marks;
    assert (s + t)[|s|] == ',';
    if s == "" {
      assert s + t == t;
      BodyFlips(t);
    } else if s[0] == '\\' {
      if |s| > 1 {
        assert (s + t)[2..] == s[2..] + t && (s + t)[1] == s[1];
        BodyAcross(s[2..], t);
      }
    } else if s[0] != '"' {
      assert (s + t)[1..] == s[1..] + t;
      BodyAcross(s[1..], t);
    }
  }

  lemma {:induction false} PercentAcross(s: string, t: string)
    requires Tail(t) && Percent.Read(s + t).Some?
    ensures Percent.Read(s).Some? || Flipped(t, Percent.Read(s + t).value.1)
    decreases |s|
  {
    hide Marks;
    assert (s + t)[|s|] == ',';
    assert !Percent.IsHex(',');
    if s == "" {
      assert s + t == t;
      PercentFlips(t);
    } else if s[0] == '%' {
      if |s| > 2 {
        assert (s + t)[3..] == s[3..] + t && (s + t)[1] == s[1] && (s + t)[2] == s[2];
        PercentAcross(s[3..], t);
      }
    } else if s[0] != '"' {
      assert (s + t)[1..] == s[1..] + t;
      PercentAcross(s[1..], t);
    }
  }

  lemma {:induction false} DisplayAcross(s: string, t: string)
    requires Tail(t) && ParseDisplay(s + t).Some?
    ensures ParseDisplay(s).Some? || Flipped(t, ParseDisplay(s + t).value.1)
  {
    hide Percent.Read, Utf8.Decode, Flipped;
    assert (s + t)[|s|] == ',';
    if s != "" {
      assert (s + t)[1..] == s[1..] + t;
      PercentAcross(s[1..], t);
      if Percent.Read(s[1..]).Some? { SFJ.PercentMore(s[1..], t); }
    }
  }

  lemma {:induction false} UnsignedBack(negative: bool, s: string, t: string)
    requires StartsWith(t, ',') && ParseUnsigned(negative, s + t).Some?
    ensures ParseUnsigned(negative, s).Some?
  {
    hide Run, DigitsValue, FractionValue, Pow10, ValidBare, IsDigit;
    assert !IsDigit(',') by { SFJ.CommaIsNoDigit(); }
    SFJ.RunMore(s, t, IsDigit);
    var n := Run(s, IsDigit);
    assert (s + t)[n..] == s[n..] + t;
    if s[n..] != "" && s[n] == '.' {
      var u := s[n + 1..];
      assert (s + t)[n + 1..] == u + t;
      SFJ.RunMore(u, t, IsDigit);
    }
  }

  lemma {:induction false} DateBack(s: string, t: string)
    requires StartsWith(t, ',') && ParseDate(s + t).Some?
    ensures ParseDate(s).Some?
  {
    hide ParseUnsigned;
    if StartsWith(s, '-') {
      assert (s + t)[1..] == s[1..] + t;
      UnsignedBack(true, s[1..], t);
      SFJ.UnsignedMore(true, s[1..], t);
    } else {
      assert !StartsWith(s + t, '-');
      UnsignedBack(false, s, t);
      SFJ.UnsignedMore(false, s, t);
    }
  }

  lemma {:induction false} BytesBack(s: string, t: string)
    requires StartsWith(t, ',') && SplitOnce(s + t, ':').Some?
    requires Base64.Decode(SplitOnce(s + t, ':').value.0).Some?
    ensures SplitOnce(s, ':').Some?
  {
    hide SplitOnce, Base64.Decode;
    var p := SplitOnce(s + t, ':').value;
    assert s + t == p.0 + [':'] + p.1;
    assert (s + t)[|s|] == ',' && (s + t)[|p.0|] == ':';
    NoCommaDecodes(p.0);
    forall j | 0 <= j < |p.0| ensures (s + t)[j] != ',' { assert p.0[j] in p.0; }
    assert s[|p.0|] == ':';
  }

  lemma {:induction false} NoCommaDecodes(s: string)
    requires Base64.Decode(s).Some?
    ensures ',' !in s
  {
    hide Base64.Decode;
    Base64.DecodeAlphabet(s);
    assert !Base64.IsDigit64(',') by { CommaIsNoDigit64(); }
  }

  lemma {:induction false} CommaIsNoDigit64()
    ensures !Base64.IsDigit64(',')
  {
  }

  lemma {:induction false} BareAcross(s: string, t: string)
    requires Tail(t) && ParseBare(s + t).Some?
    ensures s != "" && (ParseBare(s).Some? || Flipped(t, ParseBare(s + t).value.1))
  {
    hide ParseUnsigned, ParseStringBody, ParseDate, ParseDisplay, SplitOnce, Base64.Decode, Run, ValidBare, Flipped;
    if s == "" {
      assert s + t == t;
      CommaStartsNothing();
    } else {
      var u := s[1..];
      assert (s + t)[1..] == u + t && (s + t)[0] == s[0];
      if s[0] == '"' {
        BodyAcross(u, t);
      } else if s[0] == ':' {
        BytesBack(u, t);
        SFJ.BytesMore(u, t);
      } else if s[0] == '?' {
        assert (s + t)[1] == if |s| > 1 then s[1] else ',';
      } else if s[0] == '@' {
        DateBack(u, t);
      } else if s[0] == '%' {
        DisplayAcross(u, t);
      } else if s[0] == '-' {
        UnsignedBack(true, u, t);
      } else if IsDigit(s[0]) {
        UnsignedBack(false, s, t);
      }
    }
  }

  lemma {:induction false} CommaStartsNothing()
    ensures !IsDigit(',') && !TokenStart(',') && !KeyStart(',')
  {
  }

  lemma {:induction false} KeyBack(s: string, t: string)
    requires StartsWith(t, ',') && ParseKey(s + t).Some?
    ensures ParseKey(s).Some?
  {
    hide Run;
    CommaStartsNothing();
    assert (s + t)[0] == if s == "" then ',' else s[0];
  }

  lemma {:induction false} ValueAcross(s: string, t: string)
    requires Tail(t) && ParseParamValue(s + t).Some?
    ensures ParseParamValue(s).Some? || Flipped(t, ParseParamValue(s + t).value.1)
  {
    hide ParseBare, Flipped;
    if StartsWith(s, '=') {
      assert (s + t)[1..] == s[1..] + t;
      BareAcross(s[1..], t);
    }
  }

  /** Once a parser has read into `t`, the next one does not restore its parity. */
  lemma {:induction false} FlippedThenKept(t: string, r: string, q: string)
    requires Flipped(t, r) && Kept(r, q)
    ensures Flipped(t, q)
  {
  }

  lemma {:induction false} FlippedIsQuiet(t: string, r: string)
    requires Flipped(t, r)
    ensures Quiet(r)
  {
  }

  lemma {:induction false} ParamsAcross(s: string, t: string, acc: Parameters)
    requires Tail(t) && ParseParams(s + t, acc).Some?
    ensures ParseParams(s, acc).Some? || Flipped(t, ParseParams(s + t, acc).value.1)
    decreases |s|
  {
    hide ParseKey, ParseParamValue, Flipped, Kept, Skip, Quiet;
    if StartsWith(s, ';') {
      assert (s + t)[1..] == s[1..] + t;
      SFJ.SkipMore(s[1..], t, IsSp);
      var u := Skip(s[1..], IsSp);
      KeyBack(u, t);
      SFJ.KeyMore(u, t);
      var k := ParseKey(u).value;
      ValueAcross(k.1, t);
      var v := ParseParamValue(k.1 + t).value;
      if ParseParamValue(k.1).Some? {
        SFJ.ParamValueMore(k.1, t);
        ParamsAcross(ParseParamValue(k.1).value.1, t, OM.Put(acc, k.0, v.0));
      } else {
        FlippedIsQuiet(t, v.1);
        ParamsKeep(v.1, OM.Put(acc, k.0, v.0));
        FlippedThenKept(t, v.1, ParseParams(v.1, OM.Put(acc, k.0, v.0)).value.1);
      }
    } else if s == "" {
      assert s + t == t;
    }
  }

  lemma {:induction false} ItemAcross(s: string, t: string)
    requires Tail(t) && ParseItem(s + t).Some?
    ensures s != "" && (ParseItem(s).Some? || Flipped(t, ParseItem(s + t).value.1))
  {
    hide ParseBare, ParseParams, Flipped, Kept, Quiet;
    BareAcross(s, t);
    var b := ParseBare(s + t).value;
    if ParseBare(s).Some? {
      SFJ.BareMore(s, t);
      ParamsAcross(ParseBare(s).value.1, t, []);
    } else {
      FlippedIsQuiet(t, b.1);
      ParamsKeep(b.1, []);
      FlippedThenKept(t, b.1, ParseParams(b.1, []).value.1);
    }
  }

  lemma {:induction false} ItemsAcross(s: string, t: string)
    requires Tail(t) && ParseItems(s + t).Some?
    ensures ParseItems(s).Some? || Flipped(t, ParseItems(s + t).value.1)
    decreases |s|
  {
    hide ParseItem, Flipped, Kept, Skip, Run, Quiet;
    SFJ.SkipMore(s, t, IsSp);
    var u := Skip(s, IsSp);
    if u == "" { assert u + t == t; }
    if u == "" || u[0] != ')' {
      ItemAcross(u, t);
      var i := ParseItem(u + t).value;
      if ParseItem(u).Some? {
        SFJ.ItemMore(u, t);
        ItemsAcross(ParseItem(u).value.1, t);
      } else {
        FlippedIsQuiet(t, i.1);
        ItemsKeep(i.1);
        FlippedThenKept(t, i.1, ParseItems(i.1).value.1);
      }
    }
  }

  lemma {:induction false} EntryAcross(s: string, t: string)
    requires Tail(t) && ParseEntry(s + t).Some?
    ensures s != "" && (ParseEntry(s).Some? || Flipped(t, ParseEntry(s + t).value.1))
  {
    hide ParseItems, ParseParams, ParseItem, Flipped, Kept, Quiet;
    if StartsWith(s, '(') {
      assert (s + t)[1..] == s[1..] + t;
      ItemsAcross(s[1..], t);
      var l := ParseItems(s[1..] + t).value;
      if ParseItems(s[1..]).Some? {
        SFJ.ItemsMore(s[1..], t);
        ParamsAcross(ParseItems(s[1..]).value.1, t, []);
      } else {
        FlippedIsQuiet(t, l.1);
        ParamsKeep(l.1, []);
        FlippedThenKept(t, l.1, ParseParams(l.1, []).value.1);
      }
    } else {
      if s == "" { assert s + t == t; }
      ItemAcross(s, t);
    }
  }

  lemma {:induction false} MemberAcross(asDict: bool, s: string, t: string)
    requires Tail(t) && ParseMember(asDict, s + t).Some?
    ensures s != "" && (ParseMember(asDict, s).Some? || Flipped(t, ParseMember(asDict, s + t).value.1))
  {
    hide ParseEntry, ParseParams, ParseKey, Flipped;
    if !asDict {
      EntryAcross(s, t);
    } else {
      KeyBack(s, t);
      SFJ.KeyMore(s, t);
      var k := ParseKey(s).value;
      if k.1 == "" { assert k.1 + t == t; }
      if StartsWith(k.1, '=') {
        assert (k.1 + t)[1..] == k.1[1..] + t;
        EntryAcross(k.1[1..], t);
      } else {
        ParamsAcross(k.1, t, []);
      }
    }
  }

  /** If the whole parses, then so does the first part. */
  lemma {:induction false} MembersAcross(asDict: bool, s: string, t: string)
    requires Tail(t) && Even(t) && ParseMembers(asDict, s + t).Some?
    ensures ParseMembers(asDict, s).Some?
    decreases |s|
  {
    hide ParseMember, Skip, Marks;
    assert s + t != "";
    MemberAcross(asDict, s, t);
    var n := ParseMember(asDict, s + t).value;
    if ParseMember(asDict, s).Some? {
      SFJ.MemberMore(asDict, s, t);
      var x := ParseMember(asDict, s).value.1;
      SFJ.SkipMore(x, t, IsOws);
      var r := Skip(x, IsOws);
      if r != "" {
        assert (r + t)[1..] == r[1..] + t && (r + t)[0] == r[0];
        SFJ.SkipMore(r[1..], t, IsOws);
        var u := Skip(r[1..], IsOws);
        MembersAcross(asDict, u, t);
        if u == "" { assert u + t == t; NoLeadingComma(asDict, t); }
      }
    } else {
      SkipKeeps(n.1, IsOws);
      var r := Skip(n.1, IsOws);
      if r == "" {
        NoMarks('"', "");
      } else {
        OneKeeps(r);
        SkipKeeps(r[1..], IsOws);
        MembersEven(asDict, Skip(r[1..], IsOws));
      }
    }
  }

  lemma {:induction false} NoLeadingComma(asDict: bool, t: string)
    requires StartsWith(t, ',')
    ensures ParseMembers(asDict, t).None?
  {
    hide Run, ParseParams, ParseItems;
    CommaStartsNothing();
  }

  /** Joining quiet, even text to text that is no dictionary gives no dictionary. */
  lemma {:induction false} NeverRepaired(a: string, w: string)
    requires ParseDictionary(a).None? && Quiet(w) && Even(w)
    ensures ParseDictionary(a + ", " + w).None?
  {
    hide ParseMembers, Skip, Run;
    var t, u := ", " + w, Skip(a, IsSp);
    assert a + ", " + w == a + t;
    if u == "" {
      assert ParseMembers(true, "") == Some([]) by { NothingParses(); }
    } else {
      SFJ.LeadingSpaces(a, t);
      MarksAppend('"', ", ", w);
      NoMarks('"', ", ");
      if ParseMembers(true, u + t).Some? { MembersAcross(true, u, t); }
    }
  }

  lemma {:induction false} NothingParses()
    ensures ParseMembers(true, "") == Some([])
  {
  }

  /** A dictionary without backslashes has an even number of quotation marks. */
  lemma {:induction false} DictionaryEven(s: string)
    requires Quiet(s) && ParseDictionary(s).Some?
    ensures Even(s)
  {
    hide ParseMembers, Marks, Skip;
    SkipKeeps(s, IsSp);
    MembersEven(true, Skip(s, IsSp));
  }
}
