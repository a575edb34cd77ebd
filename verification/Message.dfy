/** HTTP messages, the extraction of component values from them, and the signature base built on it. */
module Message {
  import opened Wrappers
  import opened Text
  import opened ComponentId
  import opened Component
  import opened SignatureParams
  import opened SignatureBase

  // ---- Messages ----

  /** Lower-case field names, each with its values in order. */
  type Headers = map<string, seq<string>>

  /** A request target, already split by the URI parser. */
  datatype Uri = Uri(
    text: string,
    scheme: Option<string>,
    authority: Option<string>,
    path: string,
    pathAndQuery: Option<string>,
    query: Option<string>)

  datatype Head = RequestHead(verb: string, uri: Uri) | ResponseHead(status: string)

  datatype Message = Message(head: Head, headers: Headers)

  /** The request that a response answers. */
  type Request = m: Message | m.head.RequestHead?
    witness Message(RequestHead("GET", Uri("/", None, None, "/", Some("/"), None)), map[])

  const SIGNATURE: string := "signature"
  const SIGNATURE_INPUT: string := "signature-input"

  function GetAll(h: Headers, name: string): seq<string> {
    if name in h then h[name] else []
  }

  function Append(h: Headers, name: string, v: string): Headers {
    h[name := GetAll(h, name) + [v]]
  }

  /** What a field value may hold at all. */
  predicate LegalValue(s: string) {
    forall c <- s :: (c >= ' ' && c as int != 127) || c == '\t'
  }

  /** What can be read back as text. */
  predicate VisibleValue(s: string) {
    forall c <- s :: ' ' <= c <= '~' || c == '\t'
  }

  function ToTexts(vs: seq<string>): Result<seq<string>> {
    if forall v <- vs :: VisibleValue(v) then Ok(vs) else Err(HeaderToStr)
  }

  function OrEmpty(o: Option<string>): string {
    if o.Some? then o.value else ""
  }

  // ---- Extraction ----

  function ExtractField(m: Message, id: ComponentId): Result<Component>
    requires id.name.HttpField?
  {
    var vs :- ToTexts(GetAll(m.headers, ToLower(id.name.field)));
    BuildComponent(id, vs)
  }

  /** `name` belongs to `@query-param`, `req` to extraction from a request; nothing else is allowed. */
  predicate AllowedOnDerived(m: Message, d: DerivedName, p: ComponentParam) {
    match p
    case Name(_) => d == QueryParam
    case Req => m.head.RequestHead?
    case _ => false
  }

  function Texts(vs: seq<string>): (r: seq<string>)
    ensures |r| == |vs|
  {
    seq(|vs|, i requires 0 <= i < |vs| => if VisibleValue(vs[i]) then vs[i] else "")
  }

  function DerivedValues(m: Message, d: DerivedName): Result<seq<string>> {
    if d == SignatureParams then Ok(Texts(GetAll(m.headers, SIGNATURE_INPUT)))
    else
      match m.head
      case ResponseHead(status) => if d == Status then Ok([status]) else Err(InvalidComponentName)
      case RequestHead(verb, uri) =>
        match d
        case Method => Ok([verb])
        case TargetUri => Ok([uri.text])
        case Authority => Ok([OrEmpty(uri.authority)])
        case Scheme => Ok([OrEmpty(uri.scheme)])
        case RequestTarget =>
          if verb == "CONNECT" then Ok([OrEmpty(uri.authority)])
          else if verb == "OPTIONS" then Ok(["*"])
          else Ok([OrEmpty(uri.pathAndQuery)])
        case Path => Ok([if uri.path == "" then "/" else uri.path])
        case Query => Ok([if uri.query.Some? then "?" + uri.query.value else "?"])
        case QueryParam => Ok(QueryValues(OrEmpty(uri.query)))
        case _ => Err(InvalidComponentName)
  }

  function ExtractDerived(m: Message, id: ComponentId): Result<Component>
    requires id.name.Derived?
  {
    var d := id.name.derived;
    var hasReq := Req in id.params;
    if !(forall p <- id.params :: AllowedOnDerived(m, d, p)) then Err(InvalidComponentParam)
    else if m.head.RequestHead? && d == Status then Err(InvalidComponentName)
    else if m.head.ResponseHead? && d != Status && d != SignatureParams && !hasReq then Err(InvalidComponentName)
    else if m.head.ResponseHead? && d == Status && hasReq then Err(InvalidComponentParam)
    else
      var vs :- DerivedValues(m, d);
      BuildComponent(id, vs)
  }

  function Extract(m: Message, id: ComponentId): (r: Result<Component>)
    ensures r.Ok? ==> r.value.id == id
  {
    if id.name.HttpField? then ExtractField(m, id) else ExtractDerived(m, id)
  }

  // ---- The signature base of a message ----

  /** Components with `req` come from the request, all others from the message itself. */
  function ComponentFor(m: Message, id: ComponentId, reqFor: Option<Request>): (r: Result<Component>)
    ensures r.Ok? ==> r.value.id == id
  {
    if Req in id.params then
      if m.head.RequestHead? || reqFor.None? then Err(InvalidComponentParam) else Extract(reqFor.value, id)
    else Extract(m, id)
  }

  function Components(m: Message, ids: seq<ComponentId>, reqFor: Option<Request>): (r: Result<seq<Component>>)
    ensures r.Ok? ==> |r.value| == |ids| && forall i | 0 <= i < |ids| :: r.value[i].id == ids[i]
  {
    if ids == [] then Ok([])
    else
      var c :- ComponentFor(m, ids[0], reqFor);
      var cs :- Components(m, ids[1..], reqFor);
      Ok([c] + cs)
  }

  lemma {:induction false} LineIsComponent(m: Message, ids: seq<ComponentId>, reqFor: Option<Request>, i: nat)
    requires i < |ids| && Components(m, ids, reqFor).Ok?
    ensures ComponentFor(m, ids[i], reqFor) == Ok(Components(m, ids, reqFor).value[i])
  {
    hide ComponentFor;
    if i > 0 { LineIsComponent(m, ids[1..], reqFor, i - 1); }
  }

  function BuildBase(m: Message, params: SigParams, reqFor: Option<Request>): Result<SignatureBase> {
    var lines :- Components(m, params.covered, reqFor);
    TryNew(lines, params)
  }

  /** A base that is built always passes its own check, and carries exactly the covered identifiers,
      so two built bases with the same bytes were built from the same parameters and values. */
  lemma {:induction false} BuiltBaseIsExact(m: Message, params: SigParams, reqFor: Option<Request>)
    ensures BuildBase(m, params, reqFor).Ok? <==> Components(m, params.covered, reqFor).Ok?
    ensures BuildBase(m, params, reqFor).Ok? ==>
      Exact(BuildBase(m, params, reqFor).value) && BuildBase(m, params, reqFor).value.params == params
  {
    hide ComponentFor;
    if Components(m, params.covered, reqFor).Ok? {
      var lines := Components(m, params.covered, reqFor).value;
      forall i | 0 <= i < |lines| ensures SameId(lines[i].id, params.covered[i]) {
        assert lines[i].id == params.covered[i];
      }
    }
  }

  // ---- Framing ----

  /** The identifier's value depends on this field. */
  predicate ReadsField(id: ComponentId, name: string) {
    match id.name
    case HttpField(f) => ToLower(f) == name
    case Derived(d) => d == SignatureParams && name == SIGNATURE_INPUT
  }

  /** Two messages that agree on everything the identifier's value depends on. */
  ghost predicate AgreeOn(a: Message, b: Message, id: ComponentId) {
    match id.name
    case HttpField(f) => GetAll(a.headers, ToLower(f)) == GetAll(b.headers, ToLower(f))
    case Derived(d) =>
      if d == SignatureParams then
        a.head.RequestHead? == b.head.RequestHead?
        && GetAll(a.headers, SIGNATURE_INPUT) == GetAll(b.headers, SIGNATURE_INPUT)
      else a.head == b.head
  }

  lemma {:induction false} ExtractFrame(a: Message, b: Message, id: ComponentId)
    requires AgreeOn(a, b, id)
    ensures Extract(a, id) == Extract(b, id)
  {
    hide BuildComponent, VisibleValue, QueryValues;
    if id.name.Derived? {
      var d := id.name.derived;
      assert forall p <- id.params :: AllowedOnDerived(a, d, p) == AllowedOnDerived(b, d, p);
      assert (forall p <- id.params :: AllowedOnDerived(a, d, p))
        <==> (forall p <- id.params :: AllowedOnDerived(b, d, p));
      DerivedFrame(a, b, d);
    }
  }

  lemma {:induction false} DerivedFrame(a: Message, b: Message, d: DerivedName)
    requires a.head.RequestHead? == b.head.RequestHead?
    requires if d == SignatureParams then GetAll(a.headers, SIGNATURE_INPUT) == GetAll(b.headers, SIGNATURE_INPUT)
             else a.head == b.head
    ensures DerivedValues(a, d) == DerivedValues(b, d)
  {
    hide QueryValues, VisibleValue;
  }

  /** The two messages, or the two requests behind them, agree on what the identifier reads. */
  ghost predicate SourcesAgree(a: Message, ra: Option<Request>, b: Message, rb: Option<Request>, id: ComponentId) {
    if Req in id.params then ra.Some? == rb.Some? && (ra.Some? ==> AgreeOn(ra.value, rb.value, id))
    else AgreeOn(a, b, id)
  }

  lemma {:induction false} ComponentsFrame(a: Message, ra: Option<Request>, b: Message, rb: Option<Request>,
                                           ids: seq<ComponentId>)
    requires a.head.RequestHead? == b.head.RequestHead?
    requires forall id <- ids :: SourcesAgree(a, ra, b, rb, id)
    ensures Components(a, ids, ra) == Components(b, ids, rb)
  {
    hide Extract, AgreeOn;
    if ids != [] {
      var id := ids[0];
      assert id in ids;
      if Req in id.params {
        if ra.Some? { ExtractFrame(ra.value, rb.value, id); }
      } else {
        ExtractFrame(a, b, id);
      }
      ComponentsFrame(a, ra, b, rb, ids[1..]);
    }
  }

  /** The base depends only on what the covered identifiers read: on the request for those with
      `req`, on the message for the others. */
  lemma {:induction false} BaseFrame(a: Message, ra: Option<Request>, b: Message, rb: Option<Request>,
                                     params: SigParams)
    requires a.head.RequestHead? == b.head.RequestHead?
    requires forall id <- params.covered :: SourcesAgree(a, ra, b, rb, id)
    ensures BuildBase(a, params, ra) == BuildBase(b, params, rb)
  {
    hide Components, SourcesAgree;
    ComponentsFrame(a, ra, b, rb, params.covered);
  }

  /** Changing, adding or removing fields that no covered identifier of the message itself reads
      leaves the base unchanged. */
  lemma {:induction false} UncoveredFields(m: Message, headers: Headers, params: SigParams, reqFor: Option<Request>)
    requires forall id <- params.covered, name: string ::
      Req !in id.params && ReadsField(id, name) ==> GetAll(headers, name) == GetAll(m.headers, name)
    ensures BuildBase(m.(headers := headers), params, reqFor) == BuildBase(m, params, reqFor)
  {
    hide Components;
    var n := m.(headers := headers);
    forall id <- params.covered ensures SourcesAgree(n, reqFor, m, reqFor, id) {
      if Req !in id.params {
        match id.name
        case HttpField(f) => assert ReadsField(id, ToLower(f));
        case Derived(d) => if d == SignatureParams { assert ReadsField(id, SIGNATURE_INPUT); }
      }
    }
    BaseFrame(n, reqFor, m, reqFor, params);
  }

  /** A response's base is untouched by anything in the request unless some identifier has `req`,
      and by anything in the response if all of them have it. */
  lemma {:induction false} ResponseSources(a: Message, ra: Option<Request>, b: Message, rb: Option<Request>,
                                           params: SigParams)
    requires a.head.ResponseHead? && b.head.ResponseHead?
    ensures (forall id <- params.covered :: Req !in id.params) ==>
      BuildBase(a, params, ra) == BuildBase(a, params, rb)
    ensures (forall id <- params.covered :: Req in id.params) ==>
      BuildBase(a, params, ra) == BuildBase(b, params, ra)
  {
    hide Components;
    if forall id <- params.covered :: Req !in id.params {
      BaseFrame(a, ra, a, rb, params);
    }
    if forall id <- params.covered :: Req in id.params {
      BaseFrame(a, ra, b, ra, params);
    }
  }
}
