/** Component values, the lines of a signature base, and how values are derived from raw field values. */
module Component {
  import opened Wrappers
  import opened Text
  import opened StructuredFields
  import opened ComponentId
  import OM = OrderedMap

  datatype ComponentValue = Plain(val: string) | KeyValue(key: string, val: string)

  datatype Component = Component(id: ComponentId, value: ComponentValue)

  /** What a signature base shows of a value. */
  function Render(v: ComponentValue): string {
    v.val
  }

  function PrintComponent(c: Component): string {
    PrintId(c.id) + ": " + Render(c.value)
  }

  // ---- Reading a line ----

  predicate Contains(s: string, sub: string) {
    sub <= s || (s != "" && Contains(s[1..], sub))
  }

  lemma {:induction false} ContainsAt(a: string, sub: string, b: string)
    ensures Contains(a + sub + b, sub)
  {
    var s := a + sub + b;
    if a == "" {
      assert sub <= s;
    } else {
      assert s[1..] == a[1..] + sub + b;
      ContainsAt(a[1..], sub, b);
    }
  }

  function ParseComponent(line: string): Result<Component> {
    match SplitOnce(line, ':')
    case None => Err(InvalidComponent)
    case Some((a, b)) =>
      var t := Trim(a);
      if !(StartsWith(t, '"') && (EndsWith(t, '"') || Contains(t[1..], "\";"))) then Err(InvalidComponentId)
      else
        var id :- ParseId(t);
        Ok(Component(id, Plain(Trim(b))))
  }

  /** A printed line reads back as the component it was printed from, when its identifier holds no
      colon and its value is trimmed plain text. */
  lemma {:induction false} ComponentRoundTrip(c: Component)
    requires WellFormedId(c.id) && ':' !in PrintId(c.id)
    requires c.value.Plain? && Trimmed(c.value.val)
    ensures ParseComponent(PrintComponent(c)) == Ok(c)
  {
    hide ParseId, PrintId, WellFormedId, Trim;
    var s, v := PrintId(c.id), c.value.val;
    assert PrintComponent(c) == s + [':'] + (" " + v);
    SplitOnceAt(s, ':', " " + v);
    IdTrimmed(c.id);
    TrimTrimmed(s);
    TrimSpace(v);
    IdShape(c.id);
    IdRoundTrip(c.id);
  }

  lemma {:induction false} TrimSpace(v: string)
    requires Trimmed(v)
    ensures Trim(" " + v) == v
  {
    TrimTrimmed(v);
    assert (" " + v)[1..] == v;
  }

  lemma {:induction false} IdShape(id: ComponentId)
    ensures var s := PrintId(id); EndsWith(s, '"') || Contains(s[1..], "\";")
  {
    var s := PrintId(id);
    if id.params != [] {
      var t := Join(ParamTexts(id.params), ";");
      assert s[1..] == NameText(id.name) + "\";" + t;
      ContainsAt(NameText(id.name), "\";", t);
    }
  }

  // ---- HTTP fields ----

  /** `sf`: re-serialises one value, as a list if it parses as one and else as a dictionary. */
  function SfValue(v: string): Result<string> {
    if ParseList(v).Some? then OkOr(SerList(ParseList(v).value), InvalidComponentParam)
    else if ParseDictionary(v).Some? then OkOr(SerDictionary(ParseDictionary(v).value), InvalidComponentParam)
    else Err(InvalidComponentParam)
  }

  function SfValues(vs: seq<string>): (r: Result<seq<string>>)
    ensures r.Ok? ==> |r.value| == |vs|
  {
    if vs == [] then Ok([])
    else
      var w :- SfValue(vs[0]);
      var ws :- SfValues(vs[1..]);
      Ok([w] + ws)
  }

  /** `key`: the member of one value under that key, if there is one. */
  function KeyValueOf(v: string, k: string): Result<Option<string>> {
    var d :- OkOr(ParseDictionary(v), InvalidComponentParam);
    match OM.Get(d, k)
    case None => Ok(None)
    case Some(e) => Ok(SerList([e]))
  }

  function KeyValues(vs: seq<string>, k: string): Result<seq<string>> {
    if vs == [] then Ok([])
    else
      var w :- KeyValueOf(vs[0], k);
      var ws :- KeyValues(vs[1..], k);
      Ok(if w.None? then ws else [w.value] + ws)
  }

  function ApplyParam(p: ComponentParam, vs: seq<string>): Result<seq<string>> {
    match p
    case Sf => SfValues(vs)
    case Key(k) => KeyValues(vs, k)
    case Req => Ok(vs)
    case _ => Err(NotYetImplemented)
  }

  /** The parameters act one after the other, in the order in which they were inserted. */
  function ApplyParams(ps: seq<ComponentParam>, vs: seq<string>): Result<seq<string>>
    decreases ps
  {
    if ps == [] then Ok(vs)
    else
      var ws :- ApplyParam(ps[0], vs);
      ApplyParams(ps[1..], ws)
  }

  function BuildField(id: ComponentId, vs: seq<string>): Result<Component> {
    var ws :- ApplyParams(id.params, vs);
    Ok(Component(id, Plain(Join(ws, ", "))))
  }

  /** Parses every value first and only then overwrites them, so an error changes nothing. */
  method HandleParamsSf(values: array<string>) returns (r: Result<()>)
    modifies values
    ensures r.Ok? <==> SfValues(old(values[..])).Ok?
    ensures r.Ok? ==> values[..] == SfValues(old(values[..])).value
    ensures r.Err? ==> values[..] == old(values[..]) && Err(r.error) == SfValues(old(values[..]))
  {
    hide SfValue;
    var parsed: seq<string> := [];
    ghost var vs := values[..];
    assert vs[0..] == vs;
    assert SfValues(vs).Ok? ==> [] + SfValues(vs).value == SfValues(vs).value;
    for i := 0 to values.Length
      invariant values[..] == vs && |parsed| == i
      invariant SfValues(vs) ==
        (if SfValues(vs[i..]).Err? then Err(SfValues(vs[i..]).error) else Ok(parsed + SfValues(vs[i..]).value))
    {
      var w := SfValue(values[i]);
      assert vs[i..][0] == values[i] && vs[i..][1..] == vs[i + 1..];
      if w.Err? {
        return Err(w.error);
      }
      if SfValues(vs[i + 1..]).Ok? {
        var ws := SfValues(vs[i + 1..]).value;
        assert parsed + ([w.value] + ws) == (parsed + [w.value]) + ws;
      }
      parsed := parsed + [w.value];
    }
    assert vs[values.Length..] == [];
    assert parsed + [] == parsed;
    forall i | 0 <= i < values.Length {
      values[i] := parsed[i];
    }
    assert values[..] == parsed;
    r := Ok(());
  }

  /** Applies the parameters in a loop over a changing list of values. */
  method BuildHttpFieldComponent(id: ComponentId, fieldValues: seq<string>) returns (r: Result<Component>)
    ensures r == BuildField(id, fieldValues)
  {
    hide SfValues, KeyValues;
    var values := new string[|fieldValues|](i requires 0 <= i < |fieldValues| => fieldValues[i]);
    assert values[..] == fieldValues;
    for i := 0 to |id.params|
      invariant fresh(values)
      invariant ApplyParams(id.params, fieldValues) == ApplyParams(id.params[i..], values[..])
    {
      var p := id.params[i];
      assert id.params[i..][0] == p && id.params[i..][1..] == id.params[i + 1..];
      match p {
        case Sf =>
          var s := HandleParamsSf(values);
          if s.Err? { return Err(s.error); }
        case Key(k) =>
          var ws := KeyValues(values[..], k);
          if ws.Err? { return Err(ws.error); }
          var found := ws.value;
          values := new string[|found|](j requires 0 <= j < |found| => found[j]);
          assert values[..] == found;
        case Req =>
        case _ =>
          return Err(NotYetImplemented);
      }
    }
    r := Ok(Component(id, Plain(Join(values[..], ", "))));
  }

  // ---- Derived components ----

  /** The values under `name` among `key=value` texts; texts without `=` are passed over. */
  function SelectPairs(vs: seq<string>, name: string): seq<string> {
    if vs == [] then []
    else
      var rest := SelectPairs(vs[1..], name);
      match SplitOnce(vs[0], '=')
      case None => rest
      case Some((k, v)) => if k == name then [v] + rest else rest
  }

  function FindName(ps: seq<ComponentParam>): Option<string> {
    if ps == [] then None else if ps[0].Name? then Some(ps[0].name) else FindName(ps[1..])
  }

  function DerivedValue(d: DerivedName, ps: seq<ComponentParam>, vs: seq<string>): Result<ComponentValue>
    requires vs != []
  {
    match d
    case Method => Ok(Plain(ToUpper(vs[0])))
    case Authority => Ok(Plain(ToLower(vs[0])))
    case Scheme => Ok(Plain(ToLower(vs[0])))
    case QueryParam =>
      var name :- OkOr(FindName(ps), InvalidComponent);
      Ok(Plain(Join(SelectPairs(vs, name), ", ")))
    case SignatureParams =>
      var kv :- OkOr(SplitOnce(Trim(vs[0]), '='), InvalidComponent);
      Ok(KeyValue(kv.0, kv.1))
    case _ => Ok(Plain(vs[0]))
  }

  function BuildDerived(id: ComponentId, vs: seq<string>): Result<Component> {
    if !id.name.Derived? || vs == [] || !(forall p <- id.params :: p.Req? || p.Name?) then Err(InvalidComponent)
    else
      var value :- DerivedValue(id.name.derived, id.params, vs);
      Ok(Component(id, value))
  }

  function BuildComponent(id: ComponentId, vs: seq<string>): (r: Result<Component>)
    ensures r.Ok? ==> r.value.id == id
  {
    if id.name.HttpField? then BuildField(id, vs) else BuildDerived(id, vs)
  }

  // ---- Query parameters ----

  /** The non-empty parts of a query string between ampersands. */
  function NonEmpty(parts: seq<string>): seq<string> {
    if parts == [] then []
    else if parts[0] == "" then NonEmpty(parts[1..])
    else [parts[0]] + NonEmpty(parts[1..])
  }

  function QueryValues(query: string): seq<string> {
    NonEmpty(Split(query, '&'))
  }

  /** A `key=value` pair, or some other text between two ampersands. */
  datatype Segment = Pair(k: string, v: string) | Other(text: string)

  predicate ValidSegment(s: Segment) {
    match s
    case Pair(k, v) => '=' !in k && '&' !in k && '&' !in v
    case Other(t) => '=' !in t && '&' !in t
  }

  function SegmentText(s: Segment): string {
    match s
    case Pair(k, v) => k + "=" + v
    case Other(t) => t
  }

  function SegmentTexts(segs: seq<Segment>): (r: seq<string>)
    ensures |r| == |segs| && forall i | 0 <= i < |segs| :: r[i] == SegmentText(segs[i])
  {
    seq(|segs|, i requires 0 <= i < |segs| => SegmentText(segs[i]))
  }

  /** The values that were encoded under `name`, in order. */
  function ValuesOf(segs: seq<Segment>, name: string): seq<string> {
    if segs == [] then []
    else if segs[0].Pair? && segs[0].k == name then [segs[0].v] + ValuesOf(segs[1..], name)
    else ValuesOf(segs[1..], name)
  }

  lemma {:induction false} SelectEncoded(segs: seq<Segment>, name: string)
    requires forall s <- segs :: ValidSegment(s)
    ensures SelectPairs(NonEmpty(SegmentTexts(segs)), name) == ValuesOf(segs, name)
  {
    if segs != [] {
      var s := segs[0];
      assert s in segs;
      SelectEncoded(segs[1..], name);
      assert SegmentTexts(segs)[1..] == SegmentTexts(segs[1..]);
      if s.Pair? {
        assert SegmentText(s) == s.k + ['='] + s.v;
        SplitOnceAt(s.k, '=', s.v);
      }
      var rest := NonEmpty(SegmentTexts(segs[1..]));
      if SegmentText(s) != "" {
        assert ([SegmentText(s)] + rest)[1..] == rest;
      }
    }
  }

  /** Selecting inverts encoding: from the `&`-joined pairs, whatever stands between them, the
      component for `name` is the join of exactly the values encoded under that name, in order. */
  lemma {:induction false} QueryParamInverts(segs: seq<Segment>, id: ComponentId, name: string)
    requires segs != [] && forall s <- segs :: ValidSegment(s)
    requires id.name == Derived(QueryParam) && FindName(id.params) == Some(name)
    requires forall p <- id.params :: p.Req? || p.Name?
    ensures var vs := QueryValues(Join(SegmentTexts(segs), "&"));
            BuildComponent(id, vs) ==
              if forall s <- segs :: SegmentText(s) == "" then Err(InvalidComponent)
              else Ok(Component(id, Plain(Join(ValuesOf(segs, name), ", "))))
  {
    hide ValidSegment, SegmentText, Split, NonEmpty, SelectPairs, Join;
    var texts := SegmentTexts(segs);
    TextsSeparated(segs);
    SplitJoin(texts, '&');
    SelectEncoded(segs, name);
    NoneLeft(texts);
    AllEmpty(segs);
  }

  lemma {:induction false} AllEmpty(segs: seq<Segment>)
    ensures (forall s <- segs :: SegmentText(s) == "") <==> (forall t <- SegmentTexts(segs) :: t == "")
  {
    hide SegmentText;
    var texts := SegmentTexts(segs);
    forall t <- texts ensures exists s <- segs :: SegmentText(s) == t {
      var i :| 0 <= i < |segs| && texts[i] == t;
      assert segs[i] in segs;
    }
    forall s <- segs ensures SegmentText(s) in texts {
      var i :| 0 <= i < |segs| && segs[i] == s;
      assert texts[i] == SegmentText(s);
    }
  }

  lemma {:induction false} TextsSeparated(segs: seq<Segment>)
    requires forall s <- segs :: ValidSegment(s)
    ensures forall t <- SegmentTexts(segs) :: '&' !in t
  {
    hide SegmentText, ValidSegment;
    forall t <- SegmentTexts(segs) ensures '&' !in t {
      var i :| 0 <= i < |segs| && SegmentTexts(segs)[i] == t;
      assert segs[i] in segs;
      NoAmpersand(segs[i]);
    }
  }

  lemma {:induction false} NoAmpersand(s: Segment)
    requires ValidSegment(s)
    ensures '&' !in SegmentText(s)
  {
  }

  lemma {:induction false} NoneLeft(parts: seq<string>)
    ensures NonEmpty(parts) == [] <==> forall t <- parts :: t == ""
  {
    if parts != [] {
      NoneLeft(parts[1..]);
      assert parts[0] in parts;
      assert forall t <- parts :: t == parts[0] || t in parts[1..];
      assert forall t <- parts[1..] :: t in parts;
    }
  }

  // ---- Any query string ----

  function SegmentOf(text: string): (s: Segment)
    ensures SegmentText(s) == text
    ensures '&' !in text ==> ValidSegment(s)
  {
    match SplitOnce(text, '=')
    case None => Other(text)
    case Some((k, v)) =>
      assert text == k + "=" + v;
      assert forall c <- k :: c in text;
      assert forall c <- v :: c in text;
      Pair(k, v)
  }

  /** A query string, taken apart. */
  function Segments(query: string): (r: seq<Segment>)
    ensures |r| == |Split(query, '&')| && forall i | 0 <= i < |r| :: r[i] == SegmentOf(Split(query, '&')[i])
  {
    var texts := Split(query, '&');
    seq(|texts|, i requires 0 <= i < |texts| => SegmentOf(texts[i]))
  }

  /** Every query string consists of pairs and other texts between ampersands. */
  lemma {:induction false} EveryQuery(query: string)
    ensures Segments(query) != [] && forall s <- Segments(query) :: ValidSegment(s)
    ensures Join(SegmentTexts(Segments(query)), "&") == query
  {
    hide Split, ValidSegment, SegmentText, SegmentOf, Join;
    var texts, segs := Split(query, '&'), Segments(query);
    forall s <- segs ensures ValidSegment(s) {
      var i :| 0 <= i < |segs| && segs[i] == s;
      assert texts[i] in texts;
    }
    assert SegmentTexts(segs) == texts;
    JoinSplit(query, '&');
  }

  predicate OnlyAmpersands(query: string) {
    forall c <- query :: c == '&'
  }

  predicate AllBlank(parts: seq<string>) {
    forall t <- parts :: t == ""
  }

  lemma {:induction false} BlankCons(a: string, rest: seq<string>)
    ensures AllBlank([a] + rest) <==> a == "" && AllBlank(rest)
  {
    var all := [a] + rest;
    assert a in all;
    assert forall t <- rest :: t in all;
  }

  lemma {:induction false} EmptyParts(query: string)
    ensures AllBlank(Split(query, '&')) <==> OnlyAmpersands(query)
    decreases |query|
  {
    hide AllBlank;
    match SplitOnce(query, '&')
    case None =>
      assert Split(query, '&') == [query] + [];
      BlankCons(query, []);
      assert AllBlank([]) by { NoneAreBlank(); }
      if query != "" { assert query[0] in query && query[0] != '&'; }
    case Some((a, b)) =>
      EmptyParts(b);
      BlankCons(a, Split(b, '&'));
      assert Split(query, '&') == [a] + Split(b, '&');
      assert query == a + ['&'] + b;
      assert forall c :: c in query <==> c in a || c == '&' || c in b;
      if a != "" { assert a[0] in a && a[0] in query && a[0] != '&'; }
  }

  lemma {:induction false} NoneAreBlank()
    ensures AllBlank([])
  {
  }

  /** For every query string, the component for `name` is the join of exactly the values under that
      name, in order; it is an error exactly when there is nothing between the ampersands. */
  lemma {:induction false} EveryQuerySelects(query: string, id: ComponentId, name: string)
    requires id.name == Derived(QueryParam) && FindName(id.params) == Some(name)
    requires forall p <- id.params :: p.Req? || p.Name?
    ensures BuildComponent(id, QueryValues(query)) ==
      if OnlyAmpersands(query) then Err(InvalidComponent)
      else Ok(Component(id, Plain(Join(ValuesOf(Segments(query), name), ", "))))
  {
    hide ValidSegment, SegmentText, SegmentOf, Split, NonEmpty, Join, OnlyAmpersands, ValuesOf, BuildComponent;
    var segs := Segments(query);
    EveryQuery(query);
    EmptyParts(query);
    QueryParamInverts(segs, id, name);
    assert SegmentTexts(segs) == Split(query, '&');
    AllEmpty(segs);
  }

  /** A name that does not occur has the empty value, and is an error only in an empty query. */
  lemma {:induction false} AbsentName(query: string, id: ComponentId, name: string)
    requires id.name == Derived(QueryParam) && FindName(id.params) == Some(name)
    requires forall p <- id.params :: p.Req? || p.Name?
    requires forall s <- Segments(query) :: s.Pair? ==> s.k != name
    ensures BuildComponent(id, QueryValues(query)) ==
      if OnlyAmpersands(query) then Err(InvalidComponent) else Ok(Component(id, Plain("")))
  {
    hide BuildComponent, Segments;
    EveryQuerySelects(query, id, name);
    NoValues(Segments(query), name);
  }

  lemma {:induction false} NoValues(segs: seq<Segment>, name: string)
    requires forall s <- segs :: s.Pair? ==> s.k != name
    ensures ValuesOf(segs, name) == []
  {
    if segs != [] {
      assert segs[0] in segs;
      NoValues(segs[1..], name);
    }
  }

  /** The query `b=1` has the empty value under the name `a`. */
  lemma {:induction false} AbsentNameExample()
    ensures var id := ComponentId(Derived(QueryParam), [Name("a")]);
            BuildComponent(id, QueryValues("b=1")) == Ok(Component(id, Plain("")))
  {
    hide BuildComponent;
    var id, query := ComponentId(Derived(QueryParam), [Name("a")]), "b=1";
    assert query == "b" + ['='] + "1";
    SplitOnceAt("b", '=', "1");
    assert '&' !in query;
    assert Split(query, '&') == [query];
    assert Segments(query) == [Pair("b", "1")];
    assert query[0] in query;
    AbsentName(query, id, "a");
  }
}
