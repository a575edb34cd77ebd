/** Component identifiers: names, parameters, their printed form and its parser. */
module ComponentId {
  import opened Wrappers
  import opened Text
  import opened StructuredFields
  import RT = StructuredFieldsRoundTrip
  import OM = OrderedMap

  datatype DerivedName =
    | Method | TargetUri | Authority | Scheme | RequestTarget
    | Path | Query | QueryParam | Status | SignatureParams

  datatype ComponentName = HttpField(field: string) | Derived(derived: DerivedName)

  datatype ComponentParam = Sf | Key(key: string) | Bs | Tr | Req | Name(name: string)

  /** `params` is an insertion-ordered set: its order is kept, but equality ignores it. */
  datatype ComponentId = ComponentId(name: ComponentName, params: seq<ComponentParam>)

  // ---- Names ----

  function DerivedText(d: DerivedName): string {
    match d
    case Method => "@method"
    case TargetUri => "@target-uri"
    case Authority => "@authority"
    case Scheme => "@scheme"
    case RequestTarget => "@request-target"
    case Path => "@path"
    case Query => "@query"
    case QueryParam => "@query-param"
    case Status => "@status"
    case SignatureParams => "@signature-params"
  }

  /** An unknown name panics. */
  function DerivedFrom(s: string): Result<DerivedName> {
    if s == "@method" then Ok(Method)
    else if s == "@target-uri" then Ok(TargetUri)
    else if s == "@authority" then Ok(Authority)
    else if s == "@scheme" then Ok(Scheme)
    else if s == "@request-target" then Ok(RequestTarget)
    else if s == "@path" then Ok(Path)
    else if s == "@query" then Ok(Query)
    else if s == "@query-param" then Ok(QueryParam)
    else if s == "@status" then Ok(Status)
    else if s == "@signature-params" then Ok(SignatureParams)
    else Err(Panicked)
  }

  function NameText(n: ComponentName): string {
    match n
    case HttpField(f) => f
    case Derived(d) => DerivedText(d)
  }

  function NameFrom(b: BareItem): Result<ComponentName> {
    if !b.String? then Err(InvalidComponentName)
    else if StartsWith(b.str, '@') then
      var d :- DerivedFrom(b.str);
      Ok(Derived(d))
    else Ok(HttpField(b.str))
  }

  // ---- Parameters ----

  function ParamText(p: ComponentParam): string {
    match p
    case Sf => "sf"
    case Key(v) => "key=\"" + v + "\""
    case Bs => "bs"
    case Tr => "tr"
    case Req => "req"
    case Name(v) => "name=\"" + v + "\""
  }

  function ParamTexts(ps: seq<ComponentParam>): (r: seq<string>)
    ensures |r| == |ps| && forall i | 0 <= i < |ps| :: r[i] == ParamText(ps[i])
  {
    seq(|ps|, i requires 0 <= i < |ps| => ParamText(ps[i]))
  }

  function ParamFrom(k: string, v: BareItem): Result<ComponentParam> {
    if k == "sf" then Ok(Sf)
    else if k == "bs" then Ok(Bs)
    else if k == "tr" then Ok(Tr)
    else if k == "req" then Ok(Req)
    else if k == "name" then if v.String? then Ok(Name(v.str)) else Err(InvalidComponentParam)
    else if k == "key" then if v.String? then Ok(Key(v.str)) else Err(InvalidComponentParam)
    else Err(InvalidComponentParam)
  }

  /** `IndexSet::insert` */
  function SetInsert(s: seq<ComponentParam>, p: ComponentParam): seq<ComponentParam> {
    if p in s then s else s + [p]
  }

  /** Collects converted parameters into an ordered set, stopping at the first error. */
  function ParamsFrom(ps: Parameters): Result<seq<ComponentParam>> {
    if ps == [] then Ok([])
    else
      var init :- ParamsFrom(ps[..|ps| - 1]);
      var p :- ParamFrom(ps[|ps| - 1].0, ps[|ps| - 1].1);
      Ok(SetInsert(init, p))
  }

  /** `IndexSet` equality: as sets. */
  predicate SameParams(a: seq<ComponentParam>, b: seq<ComponentParam>) {
    |a| == |b| && forall p <- a :: p in b
  }

  predicate SameId(a: ComponentId, b: ComponentId) {
    a.name == b.name && SameParams(a.params, b.params)
  }

  // ---- Printing ----

  function PrintIdParams(ps: seq<ComponentParam>): string {
    if ps == [] then "" else ";" + Join(ParamTexts(ps), ";")
  }

  function PrintId(id: ComponentId): string {
    "\"" + NameText(id.name) + "\"" + PrintIdParams(id.params)
  }

  // ---- Parsing ----

  /** The two checks made after an identifier has been read. */
  predicate Allowed(id: ComponentId) {
    && ((exists p <- id.params :: p.Name?) ==> id.name == Derived(QueryParam))
    && ((exists p <- id.params :: p.Bs? || p.Sf? || p.Tr? || p.Key?) ==> id.name.HttpField?)
  }

  /** Text without any quotation mark is read as if it were quoted. */
  function IdText(val: string): string {
    var v := Trim(val);
    if !StartsWith(v, '"') && !EndsWith(v, '"') && v != "" && '"' !in v then "\"" + v + "\"" else v
  }

  function ParseId(val: string): Result<ComponentId> {
    var item :- OkOr(ParseItemField(IdText(val)), ParseSfv);
    var name :- NameFrom(item.bare);
    var params :- ParamsFrom(item.params);
    var id := ComponentId(name, params);
    if Allowed(id) then Ok(id) else Err(InvalidComponentId)
  }

  /** `add_req_param` */
  function AddReq(id: ComponentId): ComponentId {
    id.(params := SetInsert(id.params, Req))
  }

  // ---- Well-formed identifiers ----

  predicate PrintableText(s: string) {
    forall c <- s :: IsPrintable(c)
  }

  /** Printable, and in no need of escaping: the printers do not escape. */
  predicate PlainText(s: string) {
    forall c <- s :: IsPrintable(c) && c != '"' && c != '\\'
  }

  function ParamPair(p: ComponentParam): (string, BareItem) {
    match p
    case Sf => ("sf", Boolean(true))
    case Key(v) => ("key", String(v))
    case Bs => ("bs", Boolean(true))
    case Tr => ("tr", Boolean(true))
    case Req => ("req", Boolean(true))
    case Name(v) => ("name", String(v))
  }

  function ParamPairs(ps: seq<ComponentParam>): (r: Parameters)
    ensures |r| == |ps| && forall i | 0 <= i < |ps| :: r[i] == ParamPair(ps[i])
  {
    seq(|ps|, i requires 0 <= i < |ps| => ParamPair(ps[i]))
  }

  predicate PlainParam(p: ComponentParam) {
    match p
    case Key(v) => PlainText(v)
    case Name(v) => PlainText(v)
    case _ => true
  }

  /** Every string inside the identifier prints as it is. */
  predicate PlainId(id: ComponentId) {
    PlainText(NameText(id.name)) && forall p <- id.params :: PlainParam(p)
  }

  predicate PrintableParam(p: ComponentParam) {
    match p
    case Key(v) => PrintableText(v)
    case Name(v) => PrintableText(v)
    case _ => true
  }

  predicate PrintableId(id: ComponentId) {
    PrintableText(NameText(id.name)) && forall p <- id.params :: PrintableParam(p)
  }

  lemma {:induction false} PlainIdIsPrintable(id: ComponentId)
    requires PlainId(id)
    ensures PrintableId(id)
  {
    forall p <- id.params ensures PrintableParam(p) { assert PlainParam(p); }
  }

  /** No kind of parameter twice. */
  ghost predicate OneOfEachKind(ps: seq<ComponentParam>) {
    OM.UniqueKeys(ParamPairs(ps))
  }

  /** What the parser can produce: no kind of parameter twice, a field name that is not `@...`, and
      only the parameters that the name allows. */
  ghost predicate ProperId(id: ComponentId) {
    && OneOfEachKind(id.params)
    && (id.name.HttpField? ==> !StartsWith(id.name.field, '@'))
    && Allowed(id)
  }

  ghost predicate WellFormedId(id: ComponentId) {
    PlainId(id) && ProperId(id)
  }

  // ---- Printing is serialising, parsing inverts it ----

  function IdItem(id: ComponentId): Item {
    Item(String(NameText(id.name)), ParamPairs(id.params))
  }

  lemma {:induction false} PlainEscape(s: string)
    requires PlainText(s)
    ensures Escape(s) == s
  {
    if s != "" {
      PlainEscape(s[1..]);
      assert s[0] in s;
    }
  }

  lemma {:induction false} QuotedPrints(k: string, v: string)
    requires PlainText(v)
    ensures SerParam((k, String(v))) == ";" + (k + "=\"" + v + "\"")
  {
    PlainEscape(v);
    assert k + "=\"" + v + "\"" == k + ("=" + ("\"" + v + "\""));
  }

  lemma {:induction false} ParamPrints(p: ComponentParam)
    requires PlainParam(p)
    ensures SerParam(ParamPair(p)) == ";" + ParamText(p)
  {
    hide SerParam, SerBare, PlainText;
    match p
    case Key(v) =>
      QuotedPrints("key", v);
      assert "key" + "=\"" == "key=\"";
    case Name(v) =>
      QuotedPrints("name", v);
      assert "name" + "=\"" == "name=\"";
    case _ =>
      FlagPrints(ParamPair(p).0);
  }

  lemma {:induction false} FlagPrints(k: string)
    ensures SerParam((k, Boolean(true))) == ";" + k
  {
    assert ";" + k + "" == ";" + k;
  }

  lemma {:induction false} ParamsPrint(ps: seq<ComponentParam>)
    requires forall p <- ps :: PlainParam(p)
    ensures SerParams(ParamPairs(ps)) == PrintIdParams(ps)
  {
    hide ParamText, SerParam;
    if ps != [] {
      ParamPrints(ps[0]);
      ParamsPrint(ps[1..]);
      assert ParamPairs(ps)[1..] == ParamPairs(ps[1..]);
      assert ParamTexts(ps)[1..] == ParamTexts(ps[1..]);
    }
  }

  /** A printed identifier is the serialisation of a structured-field item. */
  lemma {:induction false} IdPrints(id: ComponentId)
    requires PlainId(id)
    ensures PrintId(id) == SerItem(IdItem(id))
  {
    PlainEscape(NameText(id.name));
    ParamsPrint(id.params);
  }

  lemma {:induction false} PairIsValid(p: ComponentParam)
    requires PlainParam(p)
    ensures ValidKey(ParamPair(p).0) && ValidBare(ParamPair(p).1)
  {
  }

  lemma {:induction false} IdItemIsValid(id: ComponentId)
    requires WellFormedId(id)
    ensures ValidItem(IdItem(id))
  {
    hide ValidKey, ValidBare, ParamPair, PlainParam;
    forall q <- ParamPairs(id.params) ensures ValidKey(q.0) && ValidBare(q.1) {
      var i :| 0 <= i < |id.params| && ParamPairs(id.params)[i] == q;
      assert id.params[i] in id.params;
      PairIsValid(id.params[i]);
    }
    NameIsPrintable(id.name);
  }

  lemma {:induction false} NameIsPrintable(n: ComponentName)
    requires PlainText(NameText(n))
    ensures ValidBare(String(NameText(n)))
  {
  }

  lemma {:induction false} PairBack(p: ComponentParam)
    ensures ParamFrom(ParamPair(p).0, ParamPair(p).1) == Ok(p)
  {
  }

  lemma {:induction false} PairsBack(ps: seq<ComponentParam>)
    requires OneOfEachKind(ps)
    ensures ParamsFrom(ParamPairs(ps)) == Ok(ps)
  {
    hide ParamFrom, ParamPair;
    if ps != [] {
      var init, p := ps[..|ps| - 1], ps[|ps| - 1];
      assert ParamPairs(ps)[..|ps| - 1] == ParamPairs(init);
      PairsBack(init);
      PairBack(p);
      assert ps == init + [p];
      forall i | 0 <= i < |init| ensures init[i] != p {
        assert ParamPairs(ps)[i].0 != ParamPairs(ps)[|ps| - 1].0;
      }
    }
  }

  lemma {:induction false} NameBack(n: ComponentName)
    requires n.HttpField? ==> !StartsWith(n.field, '@')
    ensures NameFrom(String(NameText(n))) == Ok(n)
  {
  }

  /** Quoted text is left alone. */
  lemma {:induction false} TrimTrimmed(s: string)
    requires Trimmed(s)
    ensures Trim(s) == s
  {
  }

  lemma {:induction false} ParamTextEnds(p: ComponentParam)
    ensures ParamText(p) != "" && !IsWhitespace(ParamText(p)[|ParamText(p)| - 1])
  {
  }

  lemma {:induction false} JoinEnds(ps: seq<ComponentParam>)
    requires ps != []
    ensures Join(ParamTexts(ps), ";") != ""
    ensures var s := Join(ParamTexts(ps), ";"); !IsWhitespace(s[|s| - 1])
  {
    hide ParamText, IsWhitespace;
    if |ps| == 1 {
      ParamTextEnds(ps[0]);
    } else {
      JoinEnds(ps[1..]);
      assert ParamTexts(ps)[1..] == ParamTexts(ps[1..]);
      var s, t := Join(ParamTexts(ps), ";"), Join(ParamTexts(ps[1..]), ";");
      assert s[|s| - 1] == t[|t| - 1];
    }
  }

  lemma {:induction false} IdTrimmed(id: ComponentId)
    ensures Trimmed(PrintId(id)) && StartsWith(PrintId(id), '"')
  {
    var s := PrintId(id);
    if id.params != [] {
      JoinEnds(id.params);
      var t := Join(ParamTexts(id.params), ";");
      assert s[|s| - 1] == t[|t| - 1];
    }
  }

  /** An identifier's item is read back whatever comes after it, as long as that neither continues
      a parameter nor starts another one. */
  lemma {:induction false} IdRead(id: ComponentId, rest: string)
    requires WellFormedId(id)
    requires rest != "" ==> rest[0] != ';' && rest[0] != '=' && !KeyChar(rest[0])
    ensures ParseItem(PrintId(id) + rest) == Some((IdItem(id), rest))
  {
    hide ParseItem, SerItem, ValidItem;
    IdPrints(id);
    IdItemIsValid(id);
    forall q <- ParamPairs(id.params) ensures RT.Closes(q.1, rest) {
      var i :| 0 <= i < |id.params| && ParamPairs(id.params)[i] == q;
      assert !ParamPair(id.params[i]).1.Token?;
    }
    RT.ItemRead(IdItem(id), rest);
  }

  /** Parsing the printed form of a well-formed identifier gives back the identifier, with its
      parameters in their order. */
  lemma {:induction false} IdRoundTrip(id: ComponentId)
    requires WellFormedId(id)
    ensures ParseId(PrintId(id)) == Ok(id)
  {
    hide ParseItem, PrintId, NameFrom, ParamsFrom;
    var s := PrintId(id);
    IdTrimmed(id);
    TrimTrimmed(s);
    RT.SkipNothing(s, IsSp);
    RT.SkipNothing("", IsSp);
    IdRead(id, "");
    assert s + "" == s;
    NameBack(id.name);
    PairsBack(id.params);
  }

  /** What the parser accepts is well formed, provided its strings need no escaping. */
  lemma {:induction false} ParsedId(val: string)
    requires ParseId(val).Ok? && PlainId(ParseId(val).value)
    ensures WellFormedId(ParseId(val).value)
  {
    var id := ParseId(val).value;
    var item := ParseItemField(IdText(val)).value;
    RT.ParsedItem(Skip(IdText(val), IsSp));
    ParamsForth(item.params);
  }

  /** Converted parameters keep the keys they came from. */
  lemma {:induction false} ParamsForth(ps: Parameters)
    requires OM.UniqueKeys(ps) && ParamsFrom(ps).Ok?
    ensures var cs := ParamsFrom(ps).value;
            && |cs| == |ps| && OneOfEachKind(cs)
            && forall i | 0 <= i < |ps| :: ParamPairs(cs)[i].0 == ps[i].0
  {
    hide ParamFrom, ParamPair;
    if ps != [] {
      var init, last := ps[..|ps| - 1], ps[|ps| - 1];
      ParamsForth(init);
      var cs, p := ParamsFrom(init).value, ParamFrom(last.0, last.1).value;
      KeyKept(last.0, last.1);
      forall i | 0 <= i < |cs| ensures cs[i] != p {
        assert ParamPairs(cs)[i].0 == init[i].0 == ps[i].0;
        assert ps[i].0 != ps[|ps| - 1].0;
      }
    }
  }

  lemma {:induction false} KeyKept(k: string, v: BareItem)
    requires ParamFrom(k, v).Ok?
    ensures ParamPair(ParamFrom(k, v).value).0 == k
  {
  }

  /** The printer is injective, and no printed identifier followed by a colon starts another one:
      the identifiers form a prefix-free code. */
  lemma {:induction false} PrefixFree(a: ComponentId, b: ComponentId, x: string, y: string)
    requires WellFormedId(a) && WellFormedId(b)
    requires PrintId(a) + ":" + x == PrintId(b) + ":" + y
    ensures a == b && x == y
  {
    hide ParseItem, PrintId, NameFrom, ParamsFrom;
    assert !KeyChar(':');
    IdRead(a, ":" + x);
    IdRead(b, ":" + y);
    assert PrintId(a) + ":" + x == PrintId(a) + (":" + x);
    assert PrintId(b) + ":" + y == PrintId(b) + (":" + y);
    assert IdItem(a) == IdItem(b) && ":" + x == ":" + y;
    assert (":" + x)[1..] == x && (":" + y)[1..] == y;
    NameBack(a.name);
    NameBack(b.name);
    PairsBack(a.params);
    PairsBack(b.params);
  }

  /** `req` is added at most once, and the result is again well formed. */
  lemma {:induction false} AddReqLaws(id: ComponentId)
    requires WellFormedId(id)
    ensures AddReq(AddReq(id)) == AddReq(id)
    ensures WellFormedId(AddReq(id))
    ensures Req !in id.params ==> PrintId(AddReq(id)) == PrintId(id) + ";req"
  {
    hide PlainText, PrintId, Allowed, ParamPair, NameText;
    if Req !in id.params {
      ReqKeepsKeys(id.params);
      assert forall p <- AddReq(id).params :: p in id.params || p == Req;
      ReqAllowed(id);
      ReqPrints(id);
    }
  }

  lemma {:induction false} ReqKeepsKeys(ps: seq<ComponentParam>)
    requires OneOfEachKind(ps) && Req !in ps
    ensures OneOfEachKind(ps + [Req])
  {
    forall i | 0 <= i < |ps| ensures ParamPair(ps[i]).0 != "req" {
      assert ps[i] in ps;
      OnlyReqIsReq(ps[i]);
    }
    hide ParamPair;
    var a, b := ParamPairs(ps), ParamPairs(ps + [Req]);
    assert forall i | 0 <= i < |ps| :: a[i] == b[i];
  }

  lemma {:induction false} OnlyReqIsReq(p: ComponentParam)
    ensures ParamPair(p).0 == "req" <==> p == Req
  {
  }

  lemma {:induction false} ReqAllowed(id: ComponentId)
    requires Allowed(id)
    ensures Allowed(AddReq(id))
  {
    assert forall p <- AddReq(id).params :: p in id.params || p == Req;
  }

  lemma {:induction false} ReqPrints(id: ComponentId)
    requires Req !in id.params
    ensures PrintId(AddReq(id)) == PrintId(id) + ";req"
  {
    hide Join;
    var ps := id.params;
    assert ParamTexts(ps + [Req]) == ParamTexts(ps) + ["req"];
    JoinSnoc(ParamTexts(ps), "req", ";");
    assert ps != [] ==> ParamTexts(ps) != [];
  }

  /** The identifier as an object whose parameter set can be extended. */
  class HttpMessageComponentId {
    var name: ComponentName
    var params: seq<ComponentParam>

    function Value(): ComponentId
      reads this
    {
      ComponentId(name, params)
    }

    constructor OfValue(id: ComponentId)
      ensures Value() == id
    {
      name, params := id.name, id.params;
    }

    /** `IndexSet::insert` on the parameter set. */
    method AddReqParam()
      modifies this`params
      ensures Value() == AddReq(old(Value()))
      ensures old(WellFormedId(Value())) ==> WellFormedId(Value()) && ParseId(PrintId(Value())) == Ok(Value())
    {
      hide WellFormedId, ParseId, PrintId;
      ghost var before := Value();
      if Req !in params {
        params := params + [Req];
      }
      if WellFormedId(before) {
        AddReqLaws(before);
        IdRoundTrip(AddReq(before));
      }
    }
  }
}
