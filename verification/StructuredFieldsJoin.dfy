/** Joining field values with ", " and then parsing is parsing each value and merging. */
module StructuredFieldsJoin {
  import opened Wrappers
  import opened Text
  import opened StructuredFields
  import RT = StructuredFieldsRoundTrip
  import OM = OrderedMap
  import Base64
  import Utf8
  import Percent

  // ---- What is read does not depend on a comma that comes later ----

  /** `r` with `t` put back behind the unread rest. */
  function More<T>(r: Option<(T, string)>, t: string): Option<(T, string)> {
    if r.None? then None else Some((r.value.0, r.value.1 + t))
  }

  lemma {:induction false} RunMore(s: string, t: string, p: char -> bool)
    requires StartsWith(t, ',') && !p(',')
    ensures Run(s + t, p) == Run(s, p)
  {
    hide Run;
    var n, u := Run(s, p), s + t;
    assert forall i | 0 <= i < |s| :: u[i] == s[i];
    assert u[|s|] == ',';
    RunIs(u, p, n);
  }

  lemma {:induction false} SkipMore(s: string, t: string, p: char -> bool)
    requires StartsWith(t, ',') && !p(',')
    ensures Skip(s + t, p) == Skip(s, p) + t
  {
    hide Run;
    RunMore(s, t, p);
    var n := Run(s, p);
    assert (s + t)[n..] == s[n..] + t;
  }

  lemma {:induction false} KeyMore(s: string, t: string)
    requires StartsWith(t, ',') && ParseKey(s).Some?
    ensures ParseKey(s + t) == More(ParseKey(s), t)
  {
    hide Run;
    RunMore(s, t, KeyChar);
    var n := Run(s, KeyChar);
    assert (s + t)[n..] == s[n..] + t && (s + t)[..n] == s[..n];
  }

  lemma {:induction false} StringMore(s: string, t: string)
    requires ParseStringBody(s).Some?
    ensures ParseStringBody(s + t) == More(ParseStringBody(s), t)
    decreases |s|
  {
    if s[0] == '"' {
      assert (s + t)[1..] == s[1..] + t;
    } else if s[0] == '\\' {
      StringMore(s[2..], t);
      assert (s + t)[2..] == s[2..] + t;
    } else {
      StringMore(s[1..], t);
      assert (s + t)[1..] == s[1..] + t;
    }
  }

  lemma {:induction false} UnsignedMore(negative: bool, s: string, t: string)
    requires StartsWith(t, ',') && ParseUnsigned(negative, s).Some?
    ensures ParseUnsigned(negative, s + t) == More(ParseUnsigned(negative, s), t)
  {
    hide ParseUnsigned;
    var n := Run(s, IsDigit);
    if n < |s| && s[n] == '.' { FractionMore(negative, s, t); } else { WholeMore(negative, s, t); }
  }

  lemma {:induction false} WholeMore(negative: bool, s: string, t: string)
    requires StartsWith(t, ',') && ParseUnsigned(negative, s).Some?
    requires Run(s, IsDigit) < |s| ==> s[Run(s, IsDigit)] != '.'
    ensures ParseUnsigned(negative, s + t) == More(ParseUnsigned(negative, s), t)
  {
    hide Run, DigitsValue, FractionValue, Pow10, ValidBare, IsDigit;
    assert !IsDigit(',') by { CommaIsNoDigit(); }
    RunMore(s, t, IsDigit);
    var n := Run(s, IsDigit);
    assert (s + t)[..n] == s[..n];
    assert (s + t)[n..] == s[n..] + t;
  }

  lemma {:induction false} FractionMore(negative: bool, s: string, t: string)
    requires StartsWith(t, ',') && ParseUnsigned(negative, s).Some?
    requires Run(s, IsDigit) < |s| && s[Run(s, IsDigit)] == '.'
    ensures ParseUnsigned(negative, s + t) == More(ParseUnsigned(negative, s), t)
  {
    hide Run, DigitsValue, ParseFraction, Pow10, ValidBare, IsDigit;
    assert !IsDigit(',') by { CommaIsNoDigit(); }
    RunMore(s, t, IsDigit);
    var n := Run(s, IsDigit);
    assert (s + t)[..n] == s[..n];
    assert (s + t)[n..] == s[n..] + t;
    assert (s + t)[n + 1..] == s[n + 1..] + t;
    PowersOfTen();
    DigitsBound(s[..n]);
    Pow10Monotone(n, 12);
    BehindPointMore(negative, DigitsValue(s[..n]), s[n + 1..], t);
  }

  lemma {:induction false} BehindPointMore(negative: bool, whole: int, s: string, t: string)
    requires 0 <= whole < 1_000_000_000_000
    requires StartsWith(t, ',') && ParseFraction(negative, whole, s).Some?
    ensures ParseFraction(negative, whole, s + t) == More(ParseFraction(negative, whole, s), t)
  {
    hide Run, FractionValue, ValidBare, IsDigit;
    assert !IsDigit(',') by { CommaIsNoDigit(); }
    RunMore(s, t, IsDigit);
    var k := Run(s, IsDigit);
    assert (s + t)[..k] == s[..k] && (s + t)[k..] == s[k..] + t;
  }

  lemma {:induction false} CommaIsNoDigit()
    ensures !IsDigit(',')
  {
  }

  lemma {:induction false} TokenMore(s: string, t: string)
    requires StartsWith(t, ',') && s != "" && TokenStart(s[0]) && ParseBare(s).Some?
    ensures ParseBare(s + t) == More(ParseBare(s), t)
  {
    hide Run, ParseUnsigned, ParseStringBody, SplitOnce, Base64.Decode, TokenChar;
    assert (s + t)[0] == s[0];
    assert !TokenChar(',') by { CommaEndsTokens(); }
    RunMore(s, t, TokenChar);
    var n := Run(s, TokenChar);
    assert (s + t)[..n] == s[..n] && (s + t)[n..] == s[n..] + t;
  }

  lemma {:induction false} CommaEndsTokens()
    ensures !TokenChar(',')
  {
  }

  lemma {:induction false} BytesMore(u: string, t: string)
    requires SplitOnce(u, ':').Some?
    ensures SplitOnce(u + t, ':') == More(SplitOnce(u, ':'), t)
  {
    hide SplitOnce;
    var p := SplitOnce(u, ':').value;
    assert u + t == p.0 + [':'] + (p.1 + t);
    SplitOnceAt(p.0, ':', p.1 + t);
  }

  lemma {:induction false} DateMore(s: string, t: string)
    requires StartsWith(t, ',') && ParseDate(s).Some?
    ensures ParseDate(s + t) == More(ParseDate(s), t)
  {
    hide ParseUnsigned;
    if StartsWith(s, '-') {
      assert (s + t)[1..] == s[1..] + t;
      UnsignedMore(true, s[1..], t);
    } else {
      assert !StartsWith(s + t, '-');
      UnsignedMore(false, s, t);
    }
  }

  lemma {:induction false} PercentMore(s: string, t: string)
    requires Percent.Read(s).Some?
    ensures Percent.Read(s + t) == More(Percent.Read(s), t)
    decreases |s|
  {
    if s[0] == '"' {
      assert (s + t)[1..] == s[1..] + t;
    } else if s[0] == '%' {
      PercentMore(s[3..], t);
      assert (s + t)[3..] == s[3..] + t;
    } else {
      PercentMore(s[1..], t);
      assert (s + t)[1..] == s[1..] + t;
    }
  }

  lemma {:induction false} DisplayMore(s: string, t: string)
    requires ParseDisplay(s).Some?
    ensures ParseDisplay(s + t) == More(ParseDisplay(s), t)
  {
    hide Percent.Read, Utf8.Decode;
    assert (s + t)[1..] == s[1..] + t;
    PercentMore(s[1..], t);
  }

  lemma {:induction false} BareMore(s: string, t: string)
    requires StartsWith(t, ',') && ParseBare(s).Some?
    ensures ParseBare(s + t) == More(ParseBare(s), t)
  {
    hide Run, ParseUnsigned, ParseStringBody, ParseDate, ParseDisplay, SplitOnce, Base64.Decode, TokenChar;
    var u := s[1..];
    assert (s + t)[1..] == u + t;
    assert (s + t)[0] == s[0];
    if s[0] == '"' {
      StringMore(u, t);
    } else if s[0] == ':' {
      BytesMore(u, t);
    } else if s[0] == '?' {
      assert (s + t)[2..] == s[2..] + t;
    } else if s[0] == '@' {
      DateMore(u, t);
    } else if s[0] == '%' {
      DisplayMore(u, t);
    } else if s[0] == '-' {
      UnsignedMore(true, u, t);
    } else if IsDigit(s[0]) {
      UnsignedMore(false, s, t);
    } else {
      TokenMore(s, t);
    }
  }

  lemma {:induction false} ParamsMore(s: string, t: string, acc: Parameters)
    requires StartsWith(t, ',') && ParseParams(s, acc).Some?
    ensures ParseParams(s + t, acc) == More(ParseParams(s, acc), t)
    decreases |s|
  {
    hide Run, Skip, ParseKey, ParseBare;
    if StartsWith(s, ';') {
      assert (s + t)[1..] == s[1..] + t;
      SkipMore(s[1..], t, IsSp);
      var u := Skip(s[1..], IsSp);
      KeyMore(u, t);
      var k := ParseKey(u).value;
      ParamValueMore(k.1, t);
      var v := ParseParamValue(k.1).value;
      ParamsMore(v.1, t, OM.Put(acc, k.0, v.0));
    }
  }

  lemma {:induction false} ParamValueMore(s: string, t: string)
    requires StartsWith(t, ',') && ParseParamValue(s).Some?
    ensures ParseParamValue(s + t) == More(ParseParamValue(s), t)
  {
    hide ParseBare;
    if StartsWith(s, '=') {
      assert (s + t)[1..] == s[1..] + t;
      BareMore(s[1..], t);
    }
  }

  lemma {:induction false} ItemMore(s: string, t: string)
    requires StartsWith(t, ',') && ParseItem(s).Some?
    ensures ParseItem(s + t) == More(ParseItem(s), t)
  {
    hide ParseBare, ParseParams;
    BareMore(s, t);
    ParamsMore(ParseBare(s).value.1, t, []);
  }

  lemma {:induction false} ItemsMore(s: string, t: string)
    requires StartsWith(t, ',') && ParseItems(s).Some?
    ensures ParseItems(s + t) == More(ParseItems(s), t)
    decreases |s|
  {
    hide Run, Skip, ParseItem;
    SkipMore(s, t, IsSp);
    var u := Skip(s, IsSp);
    if u[0] == ')' {
      assert (u + t)[1..] == u[1..] + t;
    } else {
      ItemMore(u, t);
      ItemsMore(ParseItem(u).value.1, t);
    }
  }

  lemma {:induction false} EntryMore(s: string, t: string)
    requires StartsWith(t, ',') && ParseEntry(s).Some?
    ensures ParseEntry(s + t) == More(ParseEntry(s), t)
  {
    hide ParseItems, ParseParams, ParseItem;
    if StartsWith(s, '(') {
      assert (s + t)[1..] == s[1..] + t;
      ItemsMore(s[1..], t);
      ParamsMore(ParseItems(s[1..]).value.1, t, []);
    } else {
      ItemMore(s, t);
    }
  }

  lemma {:induction false} MemberMore(asDict: bool, s: string, t: string)
    requires StartsWith(t, ',') && ParseMember(asDict, s).Some?
    ensures ParseMember(asDict, s + t) == More(ParseMember(asDict, s), t)
  {
    hide ParseEntry, ParseParams, ParseKey;
    if !asDict {
      EntryMore(s, t);
    } else {
      KeyMore(s, t);
      var k := ParseKey(s).value;
      if StartsWith(k.1, '=') {
        assert (k.1 + t)[1..] == k.1[1..] + t;
        EntryMore(k.1[1..], t);
      } else {
        ParamsMore(k.1, t, []);
      }
    }
  }

  // ---- Joining ----

  lemma {:induction false} BareVisible(s: string)
    requires ParseBare(s).Some?
    ensures !IsOws(s[0]) && s[0] != '(' && s[0] != '='
  {
    hide ParseUnsigned, ParseStringBody, ParseDate, ParseDisplay, SplitOnce, Base64.Decode, Run, TokenChar, ValidBare;
  }

  /** No member starts with white space. */
  lemma {:induction false} MembersStart(asDict: bool, s: string)
    requires ParseMembers(asDict, s).Some? && s != ""
    ensures !IsOws(s[0])
  {
    hide Skip, ParseBare, ParseParams, ParseItems, KeyChar;
    assert ParseMember(asDict, s).Some?;
    if !asDict && s[0] != '(' {
      assert ParseBare(s).Some?;
      BareVisible(s);
    }
  }

  /** What an accepted value is made of: a member, and after a comma an accepted value. */
  lemma {:induction false} MembersTaken(asDict: bool, s: string)
    requires ParseMembers(asDict, s).Some? && s != ""
    ensures ParseMember(asDict, s).Some?
    ensures var m := ParseMember(asDict, s).value;
            var r := Skip(m.1, IsOws);
            if r == "" then ParseMembers(asDict, s) == Some([m.0])
            else
              var u := Skip(r[1..], IsOws);
              && r[0] == ',' && u != "" && |u| < |s|
              && ParseMembers(asDict, u).Some?
              && ParseMembers(asDict, s).value == [m.0] + ParseMembers(asDict, u).value
  {
    hide Run, Skip, ParseMember;
  }

  lemma {:induction false} MembersPut(asDict: bool, s: string, x: string)
    requires s != "" && ParseMember(asDict, s).Some?
    requires Skip(ParseMember(asDict, s).value.1, IsOws) == "," + x
    requires Skip(x, IsOws) != "" && ParseMembers(asDict, Skip(x, IsOws)).Some?
    ensures ParseMembers(asDict, s)
         == Some([ParseMember(asDict, s).value.0] + ParseMembers(asDict, Skip(x, IsOws)).value)
  {
    hide Run, Skip, ParseMember;
    assert ("," + x)[1..] == x;
  }

  /** Leading spaces of the second value disappear in the join. */
  lemma {:induction false} MembersJoin(asDict: bool, a: string, b: string)
    requires ParseMembers(asDict, a).Some? && a != ""
    requires ParseMembers(asDict, Skip(b, IsSp)).Some? && Skip(b, IsSp) != ""
    ensures ParseMembers(asDict, a + ", " + b)
         == Some(ParseMembers(asDict, a).value + ParseMembers(asDict, Skip(b, IsSp)).value)
    decreases |a|
  {
    hide Run, Skip, ParseMember, ParseMembers;
    var t := ", " + b;
    MembersTaken(asDict, a);
    MemberMore(asDict, a, t);
    var m := ParseMember(asDict, a).value;
    SkipMore(m.1, t, IsOws);
    var r := Skip(m.1, IsOws);
    assert a + t == a + ", " + b;
    if r == "" {
      assert r + t == t && t[1..] == " " + b;
      MembersStart(asDict, Skip(b, IsSp));
      SkipBoth(b);
      MembersPut(asDict, a + t, " " + b);
    } else {
      assert (r + t)[1..] == r[1..] + t;
      SkipMore(r[1..], t, IsOws);
      var u := Skip(r[1..], IsOws);
      MembersJoin(asDict, u, b);
      assert u + t == u + ", " + b;
      var ms, ns := ParseMembers(asDict, u).value, ParseMembers(asDict, Skip(b, IsSp)).value;
      assert [m.0] + (ms + ns) == ([m.0] + ms) + ns;
      assert r + t == "," + (r[1..] + t);
      MembersPut(asDict, a + t, r[1..] + t);
    }
  }

  lemma {:induction false} SkipBoth(b: string)
    requires Skip(b, IsSp) != "" && !IsOws(Skip(b, IsSp)[0])
    ensures Skip(" " + b, IsOws) == Skip(b, IsSp)
  {
    hide Run;
    var n := Run(b, IsSp);
    var s := " " + b;
    assert forall i | 0 < i <= n :: s[i] == b[i - 1];
    RunIs(s, IsOws, n + 1);
    assert s[n + 1..] == b[n..];
  }

  /** The `", "` join of two values that each hold at least one member is the dictionary of the
      first with the members of the second inserted after it. */
  lemma {:induction false} JoinIsMerge(a: string, b: string)
    requires ParseDictionary(a).Some? && ParseDictionary(a).value != []
    requires ParseDictionary(b).Some? && ParseDictionary(b).value != []
    ensures ParseDictionary(a + ", " + b)
         == Some(OM.PutAll(ParseDictionary(a).value, ParseDictionary(b).value))
  {
    hide Run, Skip, ParseMembers;
    RT.ParsedDictionary(a);
    RT.ParsedDictionary(b);
    var u, v := Skip(a, IsSp), Skip(b, IsSp);
    LeadingSpaces(a, ", " + b);
    assert a + ", " + b == a + (", " + b);
    assert u + ", " + b == u + (", " + b);
    MembersJoin(true, u, b);
    var none: Dictionary := [];
    var ms, ns := ParseMembers(true, u).value, ParseMembers(true, v).value;
    OM.PutAllAppend(none, ms, ns);
    OM.MergeCollapses(OM.PutAll(none, ms), ns);
  }

  lemma {:induction false} LeadingSpaces(a: string, t: string)
    requires Skip(a, IsSp) != ""
    ensures Skip(a + t, IsSp) == Skip(a, IsSp) + t
  {
    hide Run;
    var n := Run(a, IsSp);
    RunIs(a + t, IsSp, n);
    assert (a + t)[n..] == a[n..] + t;
  }

  /** Nothing but spaces in front of a comma is no dictionary. */
  lemma {:induction false} BlankThenComma(a: string, t: string)
    requires ParseDictionary(a) == Some([]) && StartsWith(t, ',')
    ensures ParseDictionary(a + t).None?
  {
    hide Run;
    RT.ParsedDictionary(a);
    var n := Run(a, IsSp);
    assert n == |a|;
    RunIs(a + t, IsSp, n);
    assert (a + t)[n..] == t;
    assert ParseKey(t).None?;
  }

  /** The dictionaries of the values, merged from left to right. */
  function MergeAll(vals: seq<string>): Option<Dictionary> {
    if vals == [] then Some([])
    else
      var d :- MergeAll(vals[..|vals| - 1]);
      var e :- ParseDictionary(vals[|vals| - 1]);
      if e == [] then None else Some(OM.PutAll(d, e))
  }

  /** Parsing the join of any number of non-empty dictionaries is merging their parses. */
  lemma {:induction false} JoinAllIsMerge(vals: seq<string>)
    requires MergeAll(vals).Some? && vals != []
    ensures ParseDictionary(Join(vals, ", ")) == MergeAll(vals)
    ensures MergeAll(vals).value != []
    decreases |vals|
  {
    hide ParseDictionary;
    var init, last := vals[..|vals| - 1], vals[|vals| - 1];
    assert vals == init + [last];
    JoinSnoc(init, last, ", ");
    var e := ParseDictionary(last).value;
    RT.ParsedDictionary(last);
    if init == [] {
      OM.PutAllFresh([], e);
      assert [] + e == e;
    } else {
      JoinAllIsMerge(init);
      JoinIsMerge(Join(init, ", "), last);
      assert Join(init, ", ") + ", " + last == Join(vals, ", ");
      PutAllNonEmpty(MergeAll(init).value, e);
    }
  }

  lemma {:induction false} PutAllNonEmpty(d: Dictionary, ms: Dictionary)
    requires d != []
    ensures OM.PutAll(d, ms) != []
    decreases ms
  {
    if ms != [] {
      PutAllNonEmpty(OM.Put(d, ms[0].0, ms[0].1), ms[1..]);
    }
  }

  // ---- A value that reads both as a list and as a dictionary ----

  /** A list member that could also be a dictionary member without `=`. */
  predicate IsFlag(m: (string, ListEntry)) {
    m.1.ItemEntry? && m.1.item.bare.Token? && ValidKey(m.1.item.bare.token)
  }

  function AsFlag(m: (string, ListEntry)): (string, ListEntry)
    requires IsFlag(m)
  {
    (m.1.item.bare.token, ItemEntry(Item(Boolean(true), m.1.item.params)))
  }

  function AsFlags(ms: seq<(string, ListEntry)>): Option<seq<(string, ListEntry)>> {
    if ms == [] then Some([])
    else if !IsFlag(ms[0]) then None
    else
      var rest :- AsFlags(ms[1..]);
      Some([AsFlag(ms[0])] + rest)
  }

  /** A key is read where a token is read exactly when the token is a key; otherwise the key
      stops in the middle of the bare item, before no delimiter. */
  lemma {:induction false} KeyOrToken(s: string)
    requires ParseBare(s).Some?
    ensures var b := ParseBare(s).value;
            if b.0.Token? && ValidKey(b.0.token) then ParseKey(s) == Some((b.0.token, b.1))
            else ParseKey(s).Some? ==>
              var r := ParseKey(s).value.1;
              r != "" && r[0] !in " \t,;="
  {
    hide Run, ParseUnsigned, ParseStringBody, SplitOnce, Base64.Decode, KeyChar, TokenChar;
    if ParseKey(s).Some? {
      KeyStartIsTokenStart(s[0]);
      var n := Run(s, TokenChar);
      var k := Run(s, KeyChar);
      KeyCharsAreTokenChars();
      assert k <= n;
      if k < n {
        assert !KeyChar(s[k]) && TokenChar(s[k]);
        assert s[..n][k] == s[k] && s[k] in s[..n];
        NoDelimiterInTokens(s[k]);
      }
    }
    var b := ParseBare(s).value;
    if b.0.Token? && ValidKey(b.0.token) {
      TokenComesFirst(s);
    }
  }

  lemma {:induction false} TokenComesFirst(s: string)
    requires ParseBare(s).Some? && ParseBare(s).value.0.Token? && KeyStart(ParseBare(s).value.0.token[0])
    ensures KeyStart(s[0])
  {
    hide Run, ParseUnsigned, ParseStringBody, SplitOnce, Base64.Decode;
    var n := Run(s, TokenChar);
    assert n > 0 && s[..n][0] == s[0];
  }

  lemma {:induction false} KeyStartIsTokenStart(c: char)
    requires KeyStart(c)
    ensures TokenStart(c) && c != '"' && c != ':' && c != '?' && c != '-' && !IsDigit(c) && c != '(' && KeyChar(c)
  {
  }

  lemma {:induction false} KeyCharsAreTokenChars()
    ensures forall c: char | KeyChar(c) :: TokenChar(c)
  {
  }

  lemma {:induction false} NoDelimiterInTokens(c: char)
    requires TokenChar(c)
    ensures c !in " \t,;="
  {
  }

  /** How one list member reads as a dictionary member. */
  lemma {:induction false} MemberBothWays(s: string)
    requires ParseMember(false, s).Some?
    requires ParseMember(false, s).value.1 != "" ==> ParseMember(false, s).value.1[0] in " \t,"
    ensures var l, d := ParseMember(false, s).value, ParseMember(true, s);
            if IsFlag(l.0) then d == Some((AsFlag(l.0), l.1))
            else d.Some? ==> d.value.1 != "" && d.value.1[0] !in " \t,"
  {
    hide ParseBare, ParseItems, ParseKey, ValidKey, Run;
    if StartsWith(s, '(') {
      if ParseKey(s).Some? { KeyFirst(s); }
    } else {
      KeyOrToken(s);
    }
  }

  lemma {:induction false} KeyFirst(s: string)
    requires ParseKey(s).Some?
    ensures KeyStart(s[0])
  {
  }

  /** A value that parses as a list parses as a dictionary exactly when every member is a bare key
      with parameters, and then member by member. */
  lemma {:induction false} MembersBothWays(s: string)
    requires ParseMembers(false, s).Some?
    ensures ParseMembers(true, s) == AsFlags(ParseMembers(false, s).value)
    decreases |s|
  {
    hide ParseMember, IsFlag;
    if s != "" {
      var m := ParseMember(false, s).value;
      var r := Skip(m.1, IsOws);
      SkipHead(m.1);
      MemberBothWays(s);
      if !IsFlag(m.0) {
        var d := ParseMember(true, s);
        if d.Some? { RT.SkipNothing(d.value.1, IsOws); }
      }
      var ms := ParseMembers(false, s).value;
      if r == "" {
        assert ms == [m.0] && ms[1..] == [];
        if IsFlag(m.0) { assert [AsFlag(m.0)] + [] == [AsFlag(m.0)]; }
      } else {
        var t := Skip(r[1..], IsOws);
        MembersBothWays(t);
        assert ms == [m.0] + ParseMembers(false, t).value;
        assert ms[1..] == ParseMembers(false, t).value;
      }
    }
  }

  lemma {:induction false} SkipHead(s: string)
    requires var r := Skip(s, IsOws); r == "" || r[0] == ','
    ensures s != "" ==> s[0] in " \t,"
  {
  }
}
