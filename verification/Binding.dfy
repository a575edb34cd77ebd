/** What the signed bytes say about the message: every covered value.  The newline condition of the
    injectivity theorem is met by every base that is built from an HTTP message. */
module Binding {
  import opened Wrappers
  import opened Text
  import opened StructuredFields
  import opened ComponentId
  import opened Component
  import opened SignatureParams
  import opened SignatureBase
  import opened Message
  import Base64
  import Utf8
  import Percent
  import RT = StructuredFieldsRoundTrip
  import OM = OrderedMap

  predicate OneLine(s: string) {
    '\n' !in s
  }

  predicate AllOneLine(vs: seq<string>) {
    forall v <- vs :: OneLine(v)
  }

  // ---- Serialised structured fields are one line ----

  lemma {:induction false} EscapeOneLine(s: string)
    requires OneLine(s)
    ensures OneLine(Escape(s))
  {
    if s != "" { EscapeOneLine(s[1..]); }
  }

  lemma {:induction false} DigitsOneLine(n: nat)
    ensures OneLine(PrintNat(n))
  {
    assert forall c <- PrintNat(n) :: IsDigit(c);
  }

  lemma {:induction false} FractionOneLine(f: nat)
    requires f < 1000
    ensures OneLine(SerFraction(f))
  {
    RT.FractionRead(f);
    assert forall c <- SerFraction(f) :: IsDigit(c);
  }

  lemma {:induction false} BareOneLine(b: BareItem)
    requires ValidBare(b)
    ensures OneLine(SerBare(b))
  {
    hide PrintNat, SerFraction, Escape, Base64.Encode, TokenChar;
    match b
    case Integer(i) => DigitsOneLine(Abs(i));
    case Decimal(d) =>
      DigitsOneLine(Abs(d) / 1000);
      FractionOneLine(Abs(d) % 1000);
    case String(s) => EscapeOneLine(s);
    case Token(t) => TokenOneLine(t);
    case ByteSequence(x) => Base64.EncodeAlphabet(x);
    case Boolean(_) =>
    case Date(i) => DigitsOneLine(Abs(i));
    case DisplayString(t) => Percent.EncodePrintable(Utf8.Encode(t));
  }

  lemma {:induction false} TokenOneLine(t: string)
    requires ValidToken(t)
    ensures OneLine(t)
  {
  }

  lemma {:induction false} KeyOneLine(k: string)
    requires ValidKey(k)
    ensures OneLine(k)
  {
  }

  lemma {:induction false} ParamsOneLine(ps: Parameters)
    requires forall p <- ps :: ValidKey(p.0) && ValidBare(p.1)
    ensures OneLine(SerParams(ps))
  {
    hide SerBare, ValidKey, ValidBare;
    if ps != [] {
      assert ps[0] in ps;
      BareOneLine(ps[0].1);
      KeyOneLine(ps[0].0);
      ParamsOneLine(ps[1..]);
    }
  }

  lemma {:induction false} ItemOneLine(i: Item)
    requires ValidItem(i)
    ensures OneLine(SerItem(i))
  {
    hide SerBare, SerParams, ValidKey, ValidBare;
    BareOneLine(i.bare);
    ParamsOneLine(i.params);
  }

  lemma {:induction false} ItemsOneLine(items: seq<Item>)
    requires forall i <- items :: ValidItem(i)
    ensures OneLine(SerItems(items))
  {
    hide SerItem, ValidItem;
    if items != [] {
      assert items[0] in items;
      ItemOneLine(items[0]);
      ItemsOneLine(items[1..]);
    }
  }

  lemma {:induction false} EntryOneLine(e: ListEntry)
    requires ValidEntry(e)
    ensures OneLine(SerEntry(e))
  {
    hide SerItem, SerItems, SerParams, ValidItem, ValidKey, ValidBare;
    match e
    case ItemEntry(i) => ItemOneLine(i);
    case InnerEntry(l) =>
      ItemsOneLine(l.items);
      ParamsOneLine(l.params);
  }

  lemma {:induction false} MemberOneLine(asDict: bool, m: (string, ListEntry))
    requires RT.ValidMember(asDict, m)
    ensures OneLine(SerMember(asDict, m))
  {
    hide SerEntry, SerParams, ValidKey, ValidBare;
    EntryOneLine(m.1);
    if asDict {
      KeyOneLine(m.0);
      if m.1.ItemEntry? { ParamsOneLine(m.1.item.params); }
    }
  }

  lemma {:induction false} MembersOneLine(asDict: bool, ms: seq<(string, ListEntry)>)
    requires forall m <- ms :: RT.ValidMember(asDict, m)
    ensures OneLine(SerMembers(asDict, ms))
  {
    hide SerMember, RT.ValidMember;
    if ms != [] {
      assert ms[0] in ms;
      MemberOneLine(asDict, ms[0]);
      MembersOneLine(asDict, ms[1..]);
    }
  }

  lemma {:induction false} ListOneLine(l: List)
    requires ValidList(l) && l != []
    ensures SerList(l).Some? && OneLine(SerList(l).value)
  {
    hide SerMembers, ValidEntry;
    forall m <- AsMembers(l) ensures RT.ValidMember(false, m) {
      var i :| 0 <= i < |l| && AsMembers(l)[i] == m;
      assert l[i] in l;
    }
    MembersOneLine(false, AsMembers(l));
  }

  lemma {:induction false} DictionaryOneLine(d: Dictionary)
    requires ValidDictionary(d) && d != []
    ensures SerDictionary(d).Some? && OneLine(SerDictionary(d).value)
  {
    hide SerMembers, ValidEntry, ValidKey;
    assert forall m <- d :: RT.ValidMember(true, m);
    MembersOneLine(true, d);
  }

  // ---- Field values stay one line each through `sf` and `key` ----

  lemma {:induction false} SfOneLine(v: string)
    requires SfValue(v).Ok?
    ensures OneLine(SfValue(v).value)
  {
    hide ParseList, ParseDictionary, SerMembers, ValidEntry, OneLine;
    if ParseList(v).Some? {
      RT.ParsedList(v);
      ListOneLine(ParseList(v).value);
    } else {
      RT.ParsedDictionary(v);
      DictionaryOneLine(ParseDictionary(v).value);
    }
  }

  lemma {:induction false} KeyedOneLine(v: string, k: string)
    requires KeyValueOf(v, k).Ok? && KeyValueOf(v, k).value.Some?
    ensures OneLine(KeyValueOf(v, k).value.value)
  {
    hide ParseDictionary, SerList, ValidEntry, OneLine;
    RT.ParsedDictionary(v);
    var d := ParseDictionary(v).value;
    var e := OM.Get(d, k).value;
    var i :| 0 <= i < |d| && d[i] == (k, e);
    assert d[i] in d;
    assert ValidList([e]);
    ListOneLine([e]);
  }

  lemma {:induction false} ParamOneLine(p: ComponentParam, vs: seq<string>)
    requires AllOneLine(vs) && ApplyParam(p, vs).Ok?
    ensures AllOneLine(ApplyParam(p, vs).value)
    decreases vs
  {
    hide SfValue, KeyValueOf, OneLine;
    if vs != [] && (p.Sf? || p.Key?) {
      assert AllOneLine(vs[1..]);
      ParamOneLine(p, vs[1..]);
      if p.Sf? {
        SfOneLine(vs[0]);
      } else if KeyValueOf(vs[0], p.key).value.Some? {
        KeyedOneLine(vs[0], p.key);
      }
    }
  }

  lemma {:induction false} FieldParamsOneLine(ps: seq<ComponentParam>, vs: seq<string>)
    requires AllOneLine(vs) && ApplyParams(ps, vs).Ok?
    ensures AllOneLine(ApplyParams(ps, vs).value)
    decreases ps
  {
    hide ApplyParam, AllOneLine;
    if ps != [] {
      ParamOneLine(ps[0], vs);
      FieldParamsOneLine(ps[1..], ApplyParam(ps[0], vs).value);
    }
  }

  lemma {:induction false} JoinOneLine(vs: seq<string>)
    requires AllOneLine(vs)
    ensures OneLine(Join(vs, ", "))
  {
    NoBreakInJoin(vs, ", ");
  }

  // ---- Derived values are one line ----

  lemma {:induction false} CaseOneLine(s: string)
    requires OneLine(s)
    ensures OneLine(ToUpper(s)) && OneLine(ToLower(s))
  {
    forall i | 0 <= i < |s| ensures ToUpper(s)[i] != '\n' && ToLower(s)[i] != '\n' {
      assert s[i] in s;
    }
  }

  lemma {:induction false} SplitOneLine(s: string, c: char)
    requires OneLine(s)
    ensures AllOneLine(Split(s, c))
    decreases |s|
  {
    match SplitOnce(s, c)
    case None =>
    case Some((a, b)) =>
      hide SplitOnce;
      forall x <- b ensures x in s { }
      forall x <- a ensures x in s { }
      SplitOneLine(b, c);
  }

  lemma {:induction false} NonEmptyOneLine(vs: seq<string>)
    requires AllOneLine(vs)
    ensures AllOneLine(NonEmpty(vs))
  {
    hide OneLine;
    if vs != [] {
      assert AllOneLine(vs[1..]);
      NonEmptyOneLine(vs[1..]);
    }
  }

  lemma {:induction false} SelectOneLine(vs: seq<string>, name: string)
    requires AllOneLine(vs)
    ensures AllOneLine(SelectPairs(vs, name))
  {
    if vs != [] {
      assert AllOneLine(vs[1..]);
      SelectOneLine(vs[1..], name);
      assert OneLine(vs[0]);
      hide SplitOnce;
      match SplitOnce(vs[0], '=')
      case None =>
      case Some((k, v)) => assert forall x <- v :: x in vs[0];
    }
  }

  lemma {:induction false} TrimPart(s: string)
    ensures forall c <- TrimStart(s) :: c in s
    ensures forall c <- TrimEnd(s) :: c in s
    decreases |s|
  {
    hide IsWhitespace;
    if s != "" {
      TrimPart(s[1..]);
      TrimPart(s[..|s| - 1]);
    }
  }

  lemma {:induction false} TrimOneLine(s: string)
    requires OneLine(s)
    ensures OneLine(Trim(s))
  {
    TrimPart(s);
    TrimPart(TrimStart(s));
  }

  lemma {:induction false} DerivedValueOneLine(d: DerivedName, ps: seq<ComponentParam>, vs: seq<string>)
    requires vs != [] && AllOneLine(vs) && DerivedValue(d, ps, vs).Ok?
    ensures OneLine(Render(DerivedValue(d, ps, vs).value))
  {
    hide ToUpper, ToLower, SelectPairs, Join, Trim, OneLine, SplitOnce;
    CaseOneLine(vs[0]);
    match d
    case QueryParam =>
      SelectOneLine(vs, FindName(ps).value);
      JoinOneLine(SelectPairs(vs, FindName(ps).value));
    case SignatureParams =>
      TrimOneLine(vs[0]);
      AfterSplitOneLine(Trim(vs[0]));
    case _ =>
  }

  lemma {:induction false} AfterSplitOneLine(s: string)
    requires OneLine(s) && SplitOnce(s, '=').Some?
    ensures OneLine(SplitOnce(s, '=').value.1)
  {
    hide SplitOnce;
    var p := SplitOnce(s, '=').value;
    assert forall c <- p.1 :: c in s;
  }

  // ---- Messages ----

  predicate OneLineOption(o: Option<string>) {
    o.Some? ==> OneLine(o.value)
  }

  /** No part of a start line holds a newline, which the HTTP library guarantees. */
  predicate OneLineHead(h: Head) {
    match h
    case ResponseHead(status) => OneLine(status)
    case RequestHead(verb, uri) =>
      && OneLine(verb) && OneLine(uri.text) && OneLineOption(uri.scheme) && OneLineOption(uri.authority)
      && OneLine(uri.path) && OneLineOption(uri.pathAndQuery) && OneLineOption(uri.query)
  }

  lemma {:induction false} VisibleOneLine(v: string)
    requires VisibleValue(v)
    ensures OneLine(v)
  {
  }

  lemma {:induction false} DerivedValuesOneLine(m: Message, d: DerivedName)
    requires OneLineHead(m.head) && DerivedValues(m, d).Ok?
    ensures AllOneLine(DerivedValues(m, d).value)
  {
    hide VisibleValue, QueryValues, Split;
    if d == SignatureParams {
      var vs := GetAll(m.headers, SIGNATURE_INPUT);
      forall v <- Texts(vs) ensures OneLine(v) {
        var i :| 0 <= i < |vs| && Texts(vs)[i] == v;
        if VisibleValue(vs[i]) { VisibleOneLine(vs[i]); }
      }
    } else if m.head.RequestHead? && d == QueryParam {
      QueryOneLine(OrEmpty(m.head.uri.query));
    }
  }

  lemma {:induction false} QueryOneLine(query: string)
    requires OneLine(query)
    ensures AllOneLine(QueryValues(query))
  {
    hide OneLine, Split, NonEmpty;
    SplitOneLine(query, '&');
    NonEmptyOneLine(Split(query, '&'));
  }

  lemma {:induction false} ExtractOneLine(m: Message, id: ComponentId)
    requires OneLineHead(m.head) && Extract(m, id).Ok?
    ensures OneLine(Render(Extract(m, id).value.value))
  {
    hide ApplyParams, Join, VisibleValue, OneLine, DerivedValues, DerivedValue, OneLineHead, ToLower;
    if id.name.HttpField? {
      var vs := ToTexts(GetAll(m.headers, ToLower(id.name.field))).value;
      forall v <- vs ensures OneLine(v) { VisibleOneLine(v); }
      FieldParamsOneLine(id.params, vs);
      JoinOneLine(ApplyParams(id.params, vs).value);
    } else {
      var d := id.name.derived;
      DerivedValuesOneLine(m, d);
      DerivedValueOneLine(d, id.params, DerivedValues(m, d).value);
    }
  }

  ghost predicate OneLineMessage(m: Message, reqFor: Option<Request>) {
    OneLineHead(m.head) && (reqFor.Some? ==> OneLineHead(reqFor.value.head))
  }

  lemma {:induction false} ComponentsOneLine(m: Message, ids: seq<ComponentId>, reqFor: Option<Request>)
    requires OneLineMessage(m, reqFor) && Components(m, ids, reqFor).Ok?
    ensures forall c <- Components(m, ids, reqFor).value :: OneLine(Render(c.value))
  {
    hide Extract, OneLineHead, OneLine, Render;
    if ids != [] {
      if Req in ids[0].params { ExtractOneLine(reqFor.value, ids[0]); } else { ExtractOneLine(m, ids[0]); }
      ComponentsOneLine(m, ids[1..], reqFor);
    }
  }

  /** Every base built from a message with well-formed parameters is a well-formed base. */
  lemma {:induction false} BuiltBaseIsWellFormed(m: Message, p: SigParams, reqFor: Option<Request>)
    requires OneLineMessage(m, reqFor) && WellFormedParams(p) && BuildBase(m, p, reqFor).Ok?
    ensures WellFormedBase(BuildBase(m, p, reqFor).value)
  {
    hide Components, OneLineMessage, PlainId, ProperId, SameId;
    ComponentsOneLine(m, p.covered, reqFor);
    var b := BuildBase(m, p, reqFor).value;
    forall c <- b.lines ensures WellFormedId(c.id) && '\n' !in Render(c.value) {
      var i :| 0 <= i < |b.lines| && b.lines[i] == c;
      assert c.id == p.covered[i] && p.covered[i] in p.covered;
      assert OneLine(Render(c.value));
    }
  }

  lemma {:induction false} PartOneLine(parts: seq<string>, sep: string, i: nat)
    requires i < |parts| && OneLine(Join(parts, sep))
    ensures OneLine(parts[i])
  {
    if |parts| > 1 {
      var rest := Join(parts[1..], sep);
      var s := parts[0] + sep + rest;
      assert forall c <- parts[0] :: c in s;
      assert forall c <- rest :: c in s;
      if i > 0 { PartOneLine(parts[1..], sep, i - 1); }
    }
  }

  lemma {:induction false} IdsOneLine(p: SigParams)
    requires OneLine(PrintParams(p))
    ensures forall id <- p.covered :: OneLine(PrintId(id))
  {
    hide PrintRest, PrintId, Join;
    var ids := PrintIds(p.covered);
    var s := "(" + ids + ")" + PrintRest(p);
    assert OneLine(ids) by {
      forall c <- ids ensures c in s {
        var k :| 0 <= k < |ids| && ids[k] == c;
        assert s[k + 1] == c;
      }
    }
    forall id <- p.covered ensures OneLine(PrintId(id)) {
      var i :| 0 <= i < |p.covered| && p.covered[i] == id;
      PartOneLine(IdTexts(p.covered), " ", i);
    }
  }

  /** Every base built from a message prints no newline but the ones between its lines. */
  lemma {:induction false} BuiltBaseOneLine(m: Message, p: SigParams, reqFor: Option<Request>)
    requires OneLineMessage(m, reqFor) && OneLine(PrintParams(p)) && BuildBase(m, p, reqFor).Ok?
    ensures NoNewline(BuildBase(m, p, reqFor).value)
  {
    hide Components, OneLineMessage, PrintParams, PrintId, SameId;
    ComponentsOneLine(m, p.covered, reqFor);
    IdsOneLine(p);
    var b := BuildBase(m, p, reqFor).value;
    forall c <- b.lines ensures '\n' !in PrintId(c.id) && '\n' !in Render(c.value) {
      var i :| 0 <= i < |b.lines| && b.lines[i] == c;
      assert c.id == p.covered[i] && p.covered[i] in p.covered;
      assert OneLine(Render(c.value)) && OneLine(PrintId(c.id));
    }
  }

  /** What two messages agree on when their bases have the same bytes: the printed parameters, and,
      position by position, the printed identifiers and the values of the covered components, each
      taken from its own message or from the request behind it. */
  ghost predicate Bound(m: Message, p: SigParams, r: Option<Request>, n: Message, q: SigParams, s: Option<Request>) {
    && PrintParams(p) == PrintParams(q)
    && |p.covered| == |q.covered|
    && forall i | 0 <= i < |p.covered| ::
      var x, y := ComponentFor(m, p.covered[i], r), ComponentFor(n, q.covered[i], s);
      && PrintId(p.covered[i]) == PrintId(q.covered[i])
      && x.Ok? && y.Ok? && Render(x.value.value) == Render(y.value.value)
  }

  /** The signed bytes bind the message, whatever printed text the parameters hold as long as it is
      one line.  Well-formed parameters are then the same. */
  lemma {:induction false} BytesBindMessage(m: Message, p: SigParams, r: Option<Request>, n: Message, q: SigParams,
                                            s: Option<Request>)
    requires OneLineMessage(m, r) && OneLineMessage(n, s) && OneLine(PrintParams(p)) && OneLine(PrintParams(q))
    requires BuildBase(m, p, r).Ok? && BuildBase(n, q, s).Ok?
    requires AsBytes(BuildBase(m, p, r).value) == AsBytes(BuildBase(n, q, s).value)
    ensures Bound(m, p, r, n, q, s)
    ensures WellFormedParams(p) && WellFormedParams(q) ==> p == q
  {
    hide AsBytes, WellFormedParams, OneLineMessage, ComponentFor, PrintParams, PrintId, NoNewline;
    var a, b := BuildBase(m, p, r).value, BuildBase(n, q, s).value;
    BuiltBaseIsExact(m, p, r);
    BuiltBaseIsExact(n, q, s);
    BuiltBaseOneLine(m, p, r);
    BuiltBaseOneLine(n, q, s);
    BaseInjective(a, b);
    forall i | 0 <= i < |p.covered|
      ensures var x, y := ComponentFor(m, p.covered[i], r), ComponentFor(n, q.covered[i], s);
              && PrintId(p.covered[i]) == PrintId(q.covered[i])
              && x.Ok? && y.Ok? && Render(x.value.value) == Render(y.value.value)
    {
      LineIsComponent(m, p.covered, r, i);
      LineIsComponent(n, q.covered, s, i);
    }
    if WellFormedParams(p) && WellFormedParams(q) { PrintParamsInjective(p, q); }
  }
}
