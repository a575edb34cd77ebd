/** What each component of a message shows. */
module Extraction {
  import opened Wrappers
  import opened Text
  import opened ComponentId
  import opened Component
  import opened Message

  // ---- ASCII case ----

  function AsciiUpper(s: string): string {
    if s == "" then ""
    else [if 'a' <= s[0] <= 'z' then (s[0] as int - 'a' as int + 'A' as int) as char else s[0]] + AsciiUpper(s[1..])
  }

  function AsciiLower(s: string): string {
    if s == "" then ""
    else [if 'A' <= s[0] <= 'Z' then (s[0] as int - 'A' as int + 'a' as int) as char else s[0]] + AsciiLower(s[1..])
  }

  lemma {:induction false} UpperIsAscii(s: string)
    ensures ToUpper(s) == AsciiUpper(s)
  {
    if s != "" {
      UpperIsAscii(s[1..]);
      assert ToUpper(s) == [UpperChar(s[0])] + ToUpper(s[1..]);
    }
  }

  lemma {:induction false} LowerIsAscii(s: string)
    ensures ToLower(s) == AsciiLower(s)
  {
    if s != "" {
      LowerIsAscii(s[1..]);
      assert ToLower(s) == [LowerChar(s[0])] + ToLower(s[1..]);
    }
  }

  // ---- Requests ----

  /** The identifier with its parameters shows this text. */
  predicate Shows(m: Message, d: DerivedName, ps: seq<ComponentParam>, reqFor: Option<Request>, text: string) {
    var id := ComponentId(Derived(d), ps);
    ComponentFor(m, id, reqFor) == Ok(Component(id, Plain(text)))
  }

  /** The names that belong to a request line, without `@query-param`. */
  predicate OfRequest(d: DerivedName) {
    d != QueryParam && d != Status && d != DerivedName.SignatureParams
  }

  /** What a request shows for each derived name. */
  lemma {:induction false} RequestShows(m: Message, reqFor: Option<Request>)
    requires m.head.RequestHead?
    ensures Shows(m, Method, [], reqFor, AsciiUpper(m.head.verb))
    ensures Shows(m, TargetUri, [], reqFor, m.head.uri.text)
    ensures m.head.uri.authority.Some? ==> Shows(m, Authority, [], reqFor, AsciiLower(m.head.uri.authority.value))
    ensures m.head.uri.authority.None? ==> Shows(m, Authority, [], reqFor, "")
    ensures m.head.uri.scheme.Some? ==> Shows(m, Scheme, [], reqFor, AsciiLower(m.head.uri.scheme.value))
    ensures m.head.uri.scheme.None? ==> Shows(m, Scheme, [], reqFor, "")
    ensures m.head.verb == "CONNECT" && m.head.uri.authority.Some? ==>
      Shows(m, RequestTarget, [], reqFor, m.head.uri.authority.value)
    ensures m.head.verb == "CONNECT" && m.head.uri.authority.None? ==> Shows(m, RequestTarget, [], reqFor, "")
    ensures m.head.verb == "OPTIONS" ==> Shows(m, RequestTarget, [], reqFor, "*")
    ensures m.head.verb != "CONNECT" && m.head.verb != "OPTIONS" && m.head.uri.pathAndQuery.Some? ==>
      Shows(m, RequestTarget, [], reqFor, m.head.uri.pathAndQuery.value)
    ensures m.head.verb != "CONNECT" && m.head.verb != "OPTIONS" && m.head.uri.pathAndQuery.None? ==>
      Shows(m, RequestTarget, [], reqFor, "")
    ensures m.head.uri.path != "" ==> Shows(m, Path, [], reqFor, m.head.uri.path)
    ensures m.head.uri.path == "" ==> Shows(m, Path, [], reqFor, "/")
    ensures m.head.uri.query.Some? ==> Shows(m, Query, [], reqFor, "?" + m.head.uri.query.value)
    ensures m.head.uri.query.None? ==> Shows(m, Query, [], reqFor, "?")
    ensures ComponentFor(m, ComponentId(Derived(Status), []), reqFor) == Err(InvalidComponentName)
  {
    hide Shows, AsciiLower, AsciiUpper;
    NamesShow(m, reqFor);
    TargetShows(m, reqFor);
    PathShows(m, reqFor);
  }

  lemma {:induction false} NoParamsShow(m: Message, d: DerivedName, reqFor: Option<Request>)
    requires m.head.RequestHead? && OfRequest(d)
    ensures ComponentFor(m, ComponentId(Derived(d), []), reqFor)
         == BuildComponent(ComponentId(Derived(d), []), DerivedValues(m, d).value)
  {
    hide QueryValues, BuildComponent;
  }

  lemma {:induction false} NamesShow(m: Message, reqFor: Option<Request>)
    requires m.head.RequestHead?
    ensures Shows(m, Method, [], reqFor, AsciiUpper(m.head.verb))
    ensures Shows(m, TargetUri, [], reqFor, m.head.uri.text)
    ensures m.head.uri.authority.Some? ==> Shows(m, Authority, [], reqFor, AsciiLower(m.head.uri.authority.value))
    ensures m.head.uri.authority.None? ==> Shows(m, Authority, [], reqFor, "")
    ensures m.head.uri.scheme.Some? ==> Shows(m, Scheme, [], reqFor, AsciiLower(m.head.uri.scheme.value))
    ensures m.head.uri.scheme.None? ==> Shows(m, Scheme, [], reqFor, "")
  {
    hide QueryValues, ToUpper, ToLower, VisibleValue, ComponentFor;
    NoParamsShow(m, Method, reqFor);
    NoParamsShow(m, TargetUri, reqFor);
    NoParamsShow(m, Authority, reqFor);
    NoParamsShow(m, Scheme, reqFor);
    UpperIsAscii(m.head.verb);
    LowerIsAscii(OrEmpty(m.head.uri.authority));
    LowerIsAscii(OrEmpty(m.head.uri.scheme));
    assert AsciiLower("") == "";
    hide AsciiLower, AsciiUpper;
  }

  lemma {:induction false} TargetShows(m: Message, reqFor: Option<Request>)
    requires m.head.RequestHead?
    ensures m.head.verb == "CONNECT" && m.head.uri.authority.Some? ==>
      Shows(m, RequestTarget, [], reqFor, m.head.uri.authority.value)
    ensures m.head.verb == "CONNECT" && m.head.uri.authority.None? ==> Shows(m, RequestTarget, [], reqFor, "")
    ensures m.head.verb == "OPTIONS" ==> Shows(m, RequestTarget, [], reqFor, "*")
    ensures m.head.verb != "CONNECT" && m.head.verb != "OPTIONS" && m.head.uri.pathAndQuery.Some? ==>
      Shows(m, RequestTarget, [], reqFor, m.head.uri.pathAndQuery.value)
    ensures m.head.verb != "CONNECT" && m.head.verb != "OPTIONS" && m.head.uri.pathAndQuery.None? ==>
      Shows(m, RequestTarget, [], reqFor, "")
  {
    hide QueryValues, ToUpper, ToLower, VisibleValue, ComponentFor;
    NoParamsShow(m, RequestTarget, reqFor);
  }

  lemma {:induction false} PathShows(m: Message, reqFor: Option<Request>)
    requires m.head.RequestHead?
    ensures m.head.uri.path != "" ==> Shows(m, Path, [], reqFor, m.head.uri.path)
    ensures m.head.uri.path == "" ==> Shows(m, Path, [], reqFor, "/")
    ensures m.head.uri.query.Some? ==> Shows(m, Query, [], reqFor, "?" + m.head.uri.query.value)
    ensures m.head.uri.query.None? ==> Shows(m, Query, [], reqFor, "?")
    ensures ComponentFor(m, ComponentId(Derived(Status), []), reqFor) == Err(InvalidComponentName)
  {
    hide QueryValues, ToUpper, ToLower, VisibleValue;
    assert ComponentFor(m, ComponentId(Derived(Status), []), reqFor) == Err(InvalidComponentName);
    hide ComponentFor;
    NoParamsShow(m, Path, reqFor);
    NoParamsShow(m, Query, reqFor);
  }

  /** `@query-param` reads the query of the request line. */
  lemma {:induction false} QueryParamShows(m: Message, name: string, reqFor: Option<Request>)
    requires m.head.RequestHead?
    ensures var id, query := ComponentId(Derived(QueryParam), [Name(name)]),
                             (if m.head.uri.query.Some? then m.head.uri.query.value else "");
            ComponentFor(m, id, reqFor)
            == if forall c <- query :: c == '&' then Err(InvalidComponent)
               else Ok(Component(id, Plain(Join(ValuesOf(Segments(query), name), ", "))))
    ensures ComponentFor(m, ComponentId(Derived(QueryParam), []), reqFor) == Err(InvalidComponent)
  {
    hide QueryValues, BuildComponent, Join, ValuesOf, Segments;
    var query := if m.head.uri.query.Some? then m.head.uri.query.value else "";
    EveryQuerySelects(query, ComponentId(Derived(QueryParam), [Name(name)]), name);
    NamelessFails(QueryValues(query));
  }

  lemma {:induction false} NamelessFails(vs: seq<string>)
    ensures BuildComponent(ComponentId(Derived(QueryParam), []), vs) == Err(InvalidComponent)
  {
  }

  // ---- Responses ----

  /** A response shows its status and, without `req`, nothing of a request. */
  lemma {:induction false} ResponseShows(m: Message, reqFor: Option<Request>)
    requires m.head.ResponseHead?
    ensures Shows(m, Status, [], reqFor, m.head.status)
    ensures forall d | OfRequest(d) || d == QueryParam ::
      ComponentFor(m, ComponentId(Derived(d), []), reqFor) == Err(InvalidComponentName)
    ensures forall name: string ::
      ComponentFor(m, ComponentId(Derived(QueryParam), [Name(name)]), reqFor) == Err(InvalidComponentName)
  {
    hide QueryValues, VisibleValue;
  }

  /** With `req` a response shows what its request shows without. */
  lemma {:induction false} ResponseShowsRequest(m: Message, r: Request, text: string)
    requires m.head.ResponseHead?
    ensures forall d | OfRequest(d) :: Shows(m, d, [Req], Some(r), text) <==> Shows(r, d, [], None, text)
    ensures forall name ::
      && (Shows(m, QueryParam, [Name(name), Req], Some(r), text) <==> Shows(r, QueryParam, [Name(name)], None, text))
      && (Shows(m, QueryParam, [Req, Name(name)], Some(r), text) <==> Shows(r, QueryParam, [Name(name)], None, text))
    ensures ComponentFor(m, ComponentId(Derived(Status), [Req]), Some(r)) == Err(InvalidComponentName)
  {
    hide QueryValues, VisibleValue, ToUpper, ToLower;
    forall name ensures FindName([Name(name), Req]) == FindName([Req, Name(name)]) == FindName([Name(name)]) {
      assert [Req, Name(name)][1..] == [Name(name)];
    }
  }

  /** `req` is refused where there is no request to look at, whatever it is attached to. */
  lemma {:induction false} ReqRefused(m: Message, id: ComponentId, reqFor: Option<Request>)
    requires Req in id.params && (m.head.RequestHead? || reqFor.None?)
    ensures ComponentFor(m, id, reqFor) == Err(InvalidComponentParam)
  {
  }

  /** The parameters of fields are refused on derived names, and `name` on all but `@query-param`. */
  lemma {:induction false} ParamRefused(m: Message, id: ComponentId, reqFor: Option<Request>)
    requires id.name.Derived?
    requires exists p <- id.params :: p.Sf? || p.Key? || p.Bs? || p.Tr? || (p.Name? && id.name.derived != QueryParam)
    ensures ComponentFor(m, id, reqFor) == Err(InvalidComponentParam)
  {
    hide DerivedValues, BuildComponent;
  }

  /** Extraction from a response itself never takes a derived component with `req`. */
  lemma {:induction false} ReqNotInResponse(m: Message, id: ComponentId)
    requires m.head.ResponseHead? && id.name.Derived? && Req in id.params
    ensures Extract(m, id) == Err(InvalidComponentParam)
  {
    hide DerivedValues, BuildComponent;
  }

  // ---- `@signature-params` ----

  /** The component shows the first `signature-input` value behind its first `=`. */
  lemma {:induction false} SignatureParamsShows(m: Message, reqFor: Option<Request>, a: string, b: string)
    requires "signature-input" in m.headers && m.headers["signature-input"] != []
    requires m.headers["signature-input"][0] == a + "=" + b && '=' !in a
    requires forall c <- a + "=" + b :: ' ' <= c <= '~'
    requires a != "" && a[0] != ' ' && b != "" && b[|b| - 1] != ' '
    ensures var id := ComponentId(Derived(DerivedName.SignatureParams), []);
            ComponentFor(m, id, reqFor) == Ok(Component(id, KeyValue(a, b)))
  {
    hide SplitOnce;
    var s := a + "=" + b;
    assert s[0] in s && s[|s| - 1] in s;
    TrimTrimmed(s);
    assert s == a + ['='] + b;
    SplitOnceAt(a, '=', b);
    assert VisibleValue(s);
    assert Texts(m.headers["signature-input"])[0] == s;
    hide Trim;
  }

  /** Without such a value, without an `=` in it, or with one that is not text, there is no component. */
  lemma {:induction false} SignatureParamsMissing(m: Message, reqFor: Option<Request>)
    requires "signature-input" in m.headers && m.headers["signature-input"] != [] ==>
      || '=' !in m.headers["signature-input"][0]
      || exists c <- m.headers["signature-input"][0] :: c > '~' || (c < ' ' && c != '\t')
    ensures ComponentFor(m, ComponentId(Derived(DerivedName.SignatureParams), []), reqFor) == Err(InvalidComponent)
  {
    hide SplitOnce;
    var vs := GetAll(m.headers, SIGNATURE_INPUT);
    if vs != [] {
      var t := Texts(vs)[0];
      assert '=' !in t;
      TrimKeeps(t, '=');
    }
    hide Trim;
  }

  lemma {:induction false} TrimKeeps(s: string, c: char)
    requires c !in s
    ensures c !in Trim(s)
  {
    TrimStartKeeps(s, c);
    TrimEndKeeps(TrimStart(s), c);
  }

  lemma {:induction false} TrimStartKeeps(s: string, c: char)
    requires c !in s
    ensures c !in TrimStart(s)
  {
    hide IsWhitespace;
    if s != "" { TrimStartKeeps(s[1..], c); }
  }

  lemma {:induction false} TrimEndKeeps(s: string, c: char)
    requires c !in s
    ensures c !in TrimEnd(s)
  {
    hide IsWhitespace;
    if s != "" { TrimEndKeeps(s[..|s| - 1], c); }
  }

  // ---- Fields ----

  /** A field component is built from all values of the field, its name in lower case: from the request
      with `req`, from the message without.  A value that is not text is an error. */
  lemma {:induction false} FieldShows(m: Message, f: string, ps: seq<ComponentParam>, reqFor: Option<Request>)
    requires Req in ps ==> m.head.ResponseHead? && reqFor.Some?
    ensures var id := ComponentId(HttpField(f), ps);
            var headers := if Req in ps then reqFor.value.headers else m.headers;
            var vs := if AsciiLower(f) in headers then headers[AsciiLower(f)] else [];
            ComponentFor(m, id, reqFor)
            == if exists v <- vs, c <- v :: c > '~' || (c < ' ' && c != '\t') then Err(HeaderToStr)
               else BuildField(id, vs)
  {
    hide ToLower, BuildField;
    LowerIsAscii(f);
  }

  /** Without parameters that is the join of the values. */
  lemma {:induction false} PlainFieldShows(f: string, vs: seq<string>)
    ensures var id := ComponentId(HttpField(f), []); BuildField(id, vs) == Ok(Component(id, Plain(Join(vs, ", "))))
  {
  }
}
