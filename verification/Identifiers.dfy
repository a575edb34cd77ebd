/** What text is read as which identifier. */
module Identifiers {
  import opened Wrappers
  import opened Text
  import opened StructuredFields
  import opened ComponentId
  import opened Component
  import RT = StructuredFieldsRoundTrip
  import OM = OrderedMap

  // ---- White space ----

  /** The characters with the Unicode property White_Space. */
  const WHITE_SPACE: set<int> :=
    {9, 10, 11, 12, 13, 32, 133, 160, 5760, 8192, 8193, 8194, 8195, 8196, 8197, 8198, 8199, 8200, 8201, 8202,
     8232, 8233, 8239, 8287, 12288}

  predicate White(s: string) {
    forall c <- s :: c as int in WHITE_SPACE
  }

  lemma {:induction false} WhiteIsWhitespace(c: char)
    ensures IsWhitespace(c) <==> c as int in WHITE_SPACE
  {
  }

  lemma {:induction false} StartSkips(a: string, s: string)
    requires White(a)
    ensures TrimStart(a + s) == TrimStart(s)
  {
    hide IsWhitespace;
    if a == "" {
      assert a + s == s;
    } else {
      assert a[0] in a;
      WhiteIsWhitespace(a[0]);
      assert (a + s)[1..] == a[1..] + s;
      assert forall c <- a[1..] :: c in a;
      StartSkips(a[1..], s);
    }
  }

  lemma {:induction false} EndSkips(s: string, b: string)
    requires White(b)
    ensures TrimEnd(s + b) == TrimEnd(s)
    decreases |b|
  {
    hide IsWhitespace;
    if b == "" {
      assert s + b == s;
    } else {
      var n := |b| - 1;
      assert b[n] in b;
      WhiteIsWhitespace(b[n]);
      assert (s + b)[..|s + b| - 1] == s + b[..n];
      assert forall c <- b[..n] :: c in b;
      EndSkips(s, b[..n]);
    }
  }

  lemma {:induction false} StartStops(s: string, b: string)
    requires TrimStart(s) != ""
    ensures TrimStart(s + b) == TrimStart(s) + b
  {
    hide IsWhitespace;
    if IsWhitespace(s[0]) {
      assert (s + b)[1..] == s[1..] + b;
      StartStops(s[1..], b);
    }
  }

  lemma {:induction false} StartEmpty(s: string)
    requires TrimStart(s) == ""
    ensures White(s)
  {
    hide IsWhitespace;
    if s != "" {
      StartEmpty(s[1..]);
      WhiteIsWhitespace(s[0]);
      assert s == [s[0]] + s[1..];
    }
  }

  lemma {:induction false} SpacesTrimmed(a: string, s: string, b: string)
    requires White(a) && White(b)
    ensures Trim(a + s + b) == Trim(s)
  {
    hide IsWhitespace, TrimEnd;
    assert a + s + b == a + (s + b);
    StartSkips(a, s + b);
    if TrimStart(s) == "" {
      StartEmpty(s);
      StartSkips(s, b);
      StartSkips(b, "");
      assert b + "" == b;
    } else {
      StartStops(s, b);
      EndSkips(TrimStart(s), b);
    }
  }

  /** White space around an identifier changes nothing. */
  lemma {:induction false} SpacesIgnored(a: string, s: string, b: string)
    requires White(a) && White(b)
    ensures ParseId(a + s + b) == ParseId(s)
  {
    hide Trim, ParseItemField, White;
    SpacesTrimmed(a, s, b);
  }

  // ---- Text without quotation marks ----

  /** Text without a quotation mark is read as if it stood between two. */
  lemma {:induction false} BareAsQuoted(s: string)
    requires s != "" && '"' !in s && s[0] as int !in WHITE_SPACE && s[|s| - 1] as int !in WHITE_SPACE
    ensures ParseId(s) == ParseId("\"" + s + "\"")
  {
    hide ParseItemField, Trim, IsWhitespace;
    assert s[0] in s && s[|s| - 1] in s;
    WhiteIsWhitespace(s[0]);
    WhiteIsWhitespace(s[|s| - 1]);
    TrimTrimmed(s);
    var t := "\"" + s + "\"";
    assert !IsWhitespace('"') by { QuoteIsVisible(); }
    TrimTrimmed(t);
    hide WHITE_SPACE;
  }

  lemma {:induction false} QuoteIsVisible()
    ensures !IsWhitespace('"')
  {
  }

  /** The text between two quotation marks, without any parameters. */
  lemma {:induction false} QuotedName(s: string)
    requires PlainText(s)
    ensures ParseItemField("\"" + s + "\"") == Some(Item(String(s), []))
  {
    hide ParseItem, SerItem, ValidItem, PlainText, RT.ClosesParams;
    var i := Item(String(s), []);
    var t := "\"" + s + "\"";
    NothingBehind(s);
    NothingFollows();
    RT.SkipNothing(t, IsSp);
    RT.SkipNothing("", IsSp);
    RT.ItemRead(i, "");
    assert t + "" == t;
  }

  lemma {:induction false} NothingBehind(s: string)
    requires PlainText(s)
    ensures ValidItem(Item(String(s), [])) && SerItem(Item(String(s), [])) == "\"" + s + "\""
  {
    hide Escape;
    PlainEscape(s);
    assert SerParams([]) == "";
  }

  lemma {:induction false} NothingFollows()
    ensures RT.ClosesParams([], "")
  {
  }

  lemma {:induction false} QuotedReads(s: string)
    requires PlainText(s)
    ensures ParseId("\"" + s + "\"")
         == if NameFrom(String(s)).Ok? then Ok(ComponentId(NameFrom(String(s)).value, []))
            else Err(NameFrom(String(s)).error)
  {
    hide Trim, ParseItemField, NameFrom, PlainText;
    var t := "\"" + s + "\"";
    QuoteIsVisible();
    TrimTrimmed(t);
    QuotedName(s);
    assert ParamsFrom([]) == Ok([]);
  }

  /** Printable text that neither quotes nor escapes, and has no space at its ends. */
  predicate Bare(s: string) {
    && s != "" && s[0] != ' ' && s[|s| - 1] != ' '
    && forall c <- s :: ' ' <= c <= '~' && c != '"' && c != '\\'
  }

  lemma {:induction false} BareReads(s: string)
    requires Bare(s)
    ensures ParseId(s) == ParseId("\"" + s + "\"") && PlainText(s)
  {
    hide ParseId;
    assert s[0] in s && s[|s| - 1] in s;
    VisibleEnds(s[0]);
    VisibleEnds(s[|s| - 1]);
    BareAsQuoted(s);
  }

  lemma {:induction false} VisibleEnds(c: char)
    requires ' ' < c <= '~'
    ensures c as int !in WHITE_SPACE
  {
  }

  /** Any such text is the name of a field, semicolons and all, unless it starts with `@`. */
  lemma {:induction false} FieldReads(s: string)
    requires Bare(s) && s[0] != '@'
    ensures ParseId(s) == Ok(ComponentId(HttpField(s), []))
    ensures ParseId("\"" + s + "\"") == Ok(ComponentId(HttpField(s), []))
  {
    hide ParseId;
    BareReads(s);
    QuotedReads(s);
  }

  /** The derived names. */
  lemma {:induction false} DerivedReads()
    ensures ParseId("@method") == Ok(ComponentId(Derived(Method), []))
    ensures ParseId("@target-uri") == Ok(ComponentId(Derived(TargetUri), []))
    ensures ParseId("@authority") == Ok(ComponentId(Derived(Authority), []))
    ensures ParseId("@scheme") == Ok(ComponentId(Derived(Scheme), []))
    ensures ParseId("@request-target") == Ok(ComponentId(Derived(RequestTarget), []))
    ensures ParseId("@path") == Ok(ComponentId(Derived(Path), []))
    ensures ParseId("@query") == Ok(ComponentId(Derived(Query), []))
    ensures ParseId("@query-param") == Ok(ComponentId(Derived(QueryParam), []))
    ensures ParseId("@status") == Ok(ComponentId(Derived(Status), []))
    ensures ParseId("@signature-params") == Ok(ComponentId(Derived(SignatureParams), []))
  {
    hide ParseId;
    forall s | s in NAMES ensures ParseId(s) == if NameFrom(String(s)).Ok? then
        Ok(ComponentId(NameFrom(String(s)).value, [])) else Err(NameFrom(String(s)).error)
    {
      NamesAreBare(s);
      BareReads(s);
      QuotedReads(s);
    }
  }

  const NAMES: set<string> :=
    {"@method", "@target-uri", "@authority", "@scheme", "@request-target", "@path", "@query", "@query-param",
     "@status", "@signature-params"}

  lemma {:induction false} NamesAreBare(s: string)
    requires s in NAMES
    ensures Bare(s)
  {
  }

  /** Any other text with an `@` in front panics. */
  lemma {:induction false} UnknownPanics(s: string)
    requires Bare(s) && s[0] == '@' && s !in NAMES
    ensures ParseId(s) == Err(Panicked) && ParseId("\"" + s + "\"") == Err(Panicked)
  {
    hide ParseId;
    BareReads(s);
    QuotedReads(s);
    assert NameFrom(String(s)) == Err(Panicked);
  }

  /** Empty text is no identifier. */
  lemma {:induction false} EmptyFails(s: string)
    requires White(s)
    ensures ParseId(s) == Err(ParseSfv)
  {
    SpacesTrimmed(s, "", "");
    assert s + "" + "" == s;
    assert Trim("") == "";
  }

  // ---- Text with quotation marks ----

  /** What a parameter of an item stands for. */
  ghost predicate StandsFor(q: (string, BareItem), p: ComponentParam) {
    match p
    case Sf => q.0 == "sf"
    case Bs => q.0 == "bs"
    case Tr => q.0 == "tr"
    case Req => q.0 == "req"
    case Key(v) => q == ("key", String(v))
    case Name(v) => q == ("name", String(v))
  }

  ghost predicate KnownParam(q: (string, BareItem)) {
    || q.0 in {"sf", "bs", "tr", "req"}
    || (q.0 in {"key", "name"} && q.1.String?)
  }

  /** What an item is converted to. */
  ghost predicate Converted(i: Item, r: Result<ComponentId>) {
    if !i.bare.String? then r == Err(InvalidComponentName)
    else if i.bare.str != "" && i.bare.str[0] == '@' && i.bare.str !in NAMES then r == Err(Panicked)
    else if exists q <- i.params :: !KnownParam(q) then r == Err(InvalidComponentParam)
    else if exists q <- i.params :: q.0 == "name" && i.bare.str != "@query-param" then r == Err(InvalidComponentId)
    else if exists q <- i.params :: q.0 in {"sf", "bs", "tr", "key"} && i.bare.str != "" && i.bare.str[0] == '@' then
      r == Err(InvalidComponentId)
    else
      && r.Ok?
      && (r.value.name.HttpField? <==> i.bare.str == "" || i.bare.str[0] != '@')
      && NameText(r.value.name) == i.bare.str
      && |r.value.params| == |i.params|
      && forall k | 0 <= k < |i.params| :: StandsFor(i.params[k], r.value.params[k])
  }

  lemma {:induction false} OneParam(q: (string, BareItem))
    ensures ParamFrom(q.0, q.1).Ok? <==> KnownParam(q)
    ensures KnownParam(q) ==> StandsFor(q, ParamFrom(q.0, q.1).value)
    ensures !KnownParam(q) ==> ParamFrom(q.0, q.1) == Err(InvalidComponentParam)
  {
  }

  lemma {:induction false} AllParams(ps: Parameters)
    requires OM.UniqueKeys(ps)
    ensures ParamsFrom(ps).Ok? <==> forall q <- ps :: KnownParam(q)
    ensures ParamsFrom(ps).Err? ==> ParamsFrom(ps) == Err(InvalidComponentParam)
    ensures ParamsFrom(ps).Ok? ==>
      var cs := ParamsFrom(ps).value;
      |cs| == |ps| && forall k | 0 <= k < |ps| :: StandsFor(ps[k], cs[k])
  {
    hide ParamFrom, KnownParam;
    if ps != [] {
      var init, last := ps[..|ps| - 1], ps[|ps| - 1];
      assert ps == init + [last];
      AllParams(init);
      OneParam(last);
      if ParamsFrom(ps).Ok? {
        var cs, c := ParamsFrom(init).value, ParamFrom(last.0, last.1).value;
        forall k | 0 <= k < |cs| ensures cs[k] != c {
          assert ps[k].0 != ps[|ps| - 1].0;
          assert StandsFor(init[k], cs[k]) && StandsFor(last, c);
        }
      }
    }
  }

  lemma {:induction false} NameReads(s: string)
    ensures NameFrom(String(s)).Ok? <==> s == "" || s[0] != '@' || s in NAMES
    ensures NameFrom(String(s)).Err? ==> NameFrom(String(s)) == Err(Panicked)
    ensures NameFrom(String(s)).Ok? ==>
      var n := NameFrom(String(s)).value;
      && NameText(n) == s && (n.HttpField? <==> s == "" || s[0] != '@')
      && (n == Derived(QueryParam) <==> s == "@query-param")
  {
  }

  predicate FieldOnly(p: ComponentParam) {
    p.Bs? || p.Sf? || p.Tr? || p.Key?
  }

  predicate FieldOnlyKey(k: string) {
    k in {"sf", "bs", "tr", "key"}
  }

  lemma {:induction false} OneAllowed(q: (string, BareItem), p: ComponentParam)
    requires StandsFor(q, p)
    ensures (p.Name? <==> q.0 == "name") && (FieldOnly(p) <==> FieldOnlyKey(q.0))
  {
  }

  lemma {:induction false} ParamsAllowed(id: ComponentId, ps: Parameters)
    requires |id.params| == |ps| && forall k | 0 <= k < |ps| :: StandsFor(ps[k], id.params[k])
    ensures (exists p <- id.params :: p.Name?) <==> exists q <- ps :: q.0 == "name"
    ensures (exists p <- id.params :: FieldOnly(p)) <==> exists q <- ps :: FieldOnlyKey(q.0)
  {
    hide StandsFor, FieldOnly, FieldOnlyKey;
    forall k | 0 <= k < |ps|
      ensures (id.params[k].Name? <==> ps[k].0 == "name") && (FieldOnly(id.params[k]) <==> FieldOnlyKey(ps[k].0))
      ensures id.params[k] in id.params && ps[k] in ps
    {
      OneAllowed(ps[k], id.params[k]);
    }
    SomeName(id.params, ps);
    SomeFieldOnly(id.params, ps);
  }

  lemma {:induction false} SomeName(cs: seq<ComponentParam>, ps: Parameters)
    requires |cs| == |ps| && forall k | 0 <= k < |ps| :: cs[k].Name? <==> ps[k].0 == "name"
    ensures (exists p <- cs :: p.Name?) <==> exists q <- ps :: q.0 == "name"
  {
    if exists p <- cs :: p.Name? {
      var k :| 0 <= k < |cs| && cs[k].Name?;
      assert ps[k] in ps;
    }
    if exists q <- ps :: q.0 == "name" {
      var k :| 0 <= k < |ps| && ps[k].0 == "name";
      assert cs[k] in cs;
    }
  }

  lemma {:induction false} SomeFieldOnly(cs: seq<ComponentParam>, ps: Parameters)
    requires |cs| == |ps| && forall k | 0 <= k < |ps| :: FieldOnly(cs[k]) <==> FieldOnlyKey(ps[k].0)
    ensures (exists p <- cs :: FieldOnly(p)) <==> exists q <- ps :: FieldOnlyKey(q.0)
  {
    hide FieldOnly, FieldOnlyKey;
    if exists p <- cs :: FieldOnly(p) {
      var k :| 0 <= k < |cs| && FieldOnly(cs[k]);
      assert ps[k] in ps;
    }
    if exists q <- ps :: FieldOnlyKey(q.0) {
      var k :| 0 <= k < |ps| && FieldOnlyKey(ps[k].0);
      assert cs[k] in cs;
    }
  }

  /** Text with a quotation mark is read as a structured-field item, and the item is converted: the
      parameters in their order, flags whatever their value. */
  lemma {:induction false} QuotedExactly(s: string)
    requires '"' in s
    ensures ParseItemField(Trim(s)).None? ==> ParseId(s) == Err(ParseSfv)
    ensures ParseItemField(Trim(s)).Some? ==> Converted(ParseItemField(Trim(s)).value, ParseId(s))
  {
    hide Trim, ParseItem, NameFrom, ParamsFrom, KnownParam, StandsFor, NAMES;
    assert '"' in Trim(s) by { QuoteStays(s); }
    if ParseItemField(Trim(s)).Some? {
      var i := ParseItemField(Trim(s)).value;
      RT.ParsedItem(Skip(Trim(s), IsSp));
      AllParams(i.params);
      if i.bare.String? {
        NameReads(i.bare.str);
        if NameFrom(i.bare).Ok? && ParamsFrom(i.params).Ok? {
          ParamsAllowed(ComponentId(NameFrom(i.bare).value, ParamsFrom(i.params).value), i.params);
        }
      } else {
        NoName(i.bare);
      }
    }
  }

  lemma {:induction false} NoName(b: BareItem)
    requires !b.String?
    ensures NameFrom(b) == Err(InvalidComponentName)
  {
  }

  lemma {:induction false} QuoteStays(s: string)
    requires '"' in s
    ensures '"' in Trim(s)
  {
    QuoteIsVisible();
    QuoteStaysInFront(s);
    QuoteStaysBehind(TrimStart(s));
  }

  lemma {:induction false} QuoteStaysInFront(s: string)
    requires '"' in s && !IsWhitespace('"')
    ensures '"' in TrimStart(s)
  {
    hide IsWhitespace;
    if IsWhitespace(s[0]) {
      assert s == [s[0]] + s[1..];
      QuoteStaysInFront(s[1..]);
    }
  }

  lemma {:induction false} QuoteStaysBehind(s: string)
    requires '"' in s && !IsWhitespace('"')
    ensures '"' in TrimEnd(s)
  {
    hide IsWhitespace;
    if IsWhitespace(s[|s| - 1]) {
      assert s == s[..|s| - 1] + [s[|s| - 1]];
      QuoteStaysBehind(s[..|s| - 1]);
    }
  }

  // ---- Lines ----

  /** Quoted text, or quoted text with parameters behind it. */
  predicate Quoted(t: string) {
    && t != "" && t[0] == '"'
    && (t[|t| - 1] == '"' || exists i | 1 <= i < |t| - 1 :: t[i] == '"' && t[i + 1] == ';')
  }

  lemma {:induction false} ContainsExactly(s: string)
    ensures Contains(s, "\";") <==> exists i | 0 <= i < |s| - 1 :: s[i] == '"' && s[i + 1] == ';'
  {
    if s != "" {
      ContainsExactly(s[1..]);
      assert "\";" <= s <==> |s| >= 2 && s[0] == '"' && s[1] == ';';
      if exists i | 0 <= i < |s| - 1 :: s[i] == '"' && s[i + 1] == ';' {
        var i :| 0 <= i < |s| - 1 && s[i] == '"' && s[i + 1] == ';';
        if i > 0 { assert s[1..][i - 1] == '"' && s[1..][i] == ';'; }
      }
      if i :| 0 <= i < |s| - 2 && s[1..][i] == '"' && s[1..][i + 1] == ';' {
        assert s[i + 1] == '"' && s[i + 2] == ';';
      }
    }
  }

  lemma {:induction false} QuotedExactlyContains(t: string)
    ensures Quoted(t) <==> StartsWith(t, '"') && (EndsWith(t, '"') || Contains(t[1..], "\";"))
  {
    if t != "" {
      var u := t[1..];
      ContainsExactly(u);
      if i :| 1 <= i < |t| - 1 && t[i] == '"' && t[i + 1] == ';' {
        assert u[i - 1] == '"' && u[i] == ';';
      }
      if i :| 0 <= i < |u| - 1 && u[i] == '"' && u[i + 1] == ';' {
        assert t[i + 1] == '"' && t[i + 2] == ';';
      }
    }
  }

  /** A line is split at its first colon: a quoted identifier in front, the value, trimmed, behind. */
  lemma {:induction false} LineExactly(a: string, b: string)
    requires ':' !in a
    ensures ParseComponent(a) == Err(InvalidComponent)
    ensures !Quoted(Trim(a)) ==> ParseComponent(a + ":" + b) == Err(InvalidComponentId)
    ensures Quoted(Trim(a)) ==>
      ParseComponent(a + ":" + b)
      == if ParseId(Trim(a)).Ok? then Ok(Component(ParseId(Trim(a)).value, Plain(Trim(b))))
         else Err(ParseId(Trim(a)).error)
  {
    hide Trim, ParseId, Contains, Quoted;
    var line := a + ":" + b;
    assert line == a + [':'] + b;
    SplitOnceAt(a, ':', b);
    QuotedExactlyContains(Trim(a));
  }

  // ---- The printed form ----

  /** The printed forms of parameters. */
  lemma {:induction false} PrintedIds(n: ComponentName, v: string)
    ensures PrintId(ComponentId(n, [])) == "\"" + NameText(n) + "\""
    ensures PrintId(ComponentId(n, [Sf])) == "\"" + NameText(n) + "\";sf"
    ensures PrintId(ComponentId(n, [Bs])) == "\"" + NameText(n) + "\";bs"
    ensures PrintId(ComponentId(n, [Tr])) == "\"" + NameText(n) + "\";tr"
    ensures PrintId(ComponentId(n, [Req])) == "\"" + NameText(n) + "\";req"
    ensures PrintId(ComponentId(n, [Key(v)])) == "\"" + NameText(n) + "\";key=\"" + v + "\""
    ensures PrintId(ComponentId(n, [Name(v)])) == "\"" + NameText(n) + "\";name=\"" + v + "\""
  {
    forall p: ComponentParam ensures Join(ParamTexts([p]), ";") == ParamText(p) { }
    hide NameText, Join;
  }

  /** One more parameter is printed behind the others, after a semicolon. */
  lemma {:induction false} PrintedMore(n: ComponentName, ps: seq<ComponentParam>, p: ComponentParam)
    ensures PrintId(ComponentId(n, ps + [p])) == PrintId(ComponentId(n, ps)) + PrintIdParams([p])
  {
    hide ParamText, NameText, Join;
    assert ParamTexts(ps + [p]) == ParamTexts(ps) + [ParamText(p)];
    assert ParamTexts([p]) == [ParamText(p)];
    JoinSnoc(ParamTexts(ps), ParamText(p), ";");
    JoinSnoc([], ParamText(p), ";");
    assert [] + [ParamText(p)] == [ParamText(p)];
    if ps == [] { assert ps + [p] == [p] && PrintIdParams(ps) == ""; }
  }

  /** A parameter's text is what stands behind the name when it is the only one. */
  lemma {:induction false} OnlyParam(n: ComponentName, p: ComponentParam)
    ensures PrintId(ComponentId(n, [p])) == PrintId(ComponentId(n, [])) + PrintIdParams([p])
  {
    PrintedMore(n, [], p);
    assert [] + [p] == [p];
  }
}
