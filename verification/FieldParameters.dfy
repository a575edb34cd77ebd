/** `sf` and `key` are applied in insertion order: what they do, and exactly when the order shows. */
module FieldParameters {
  import opened Wrappers
  import opened Text
  import opened StructuredFields
  import opened ComponentId
  import opened Component
  import Uniqueness
  import RT = StructuredFieldsRoundTrip
  import SFJ = StructuredFieldsJoin
  import OM = OrderedMap

  /** Holds nothing but spaces. */
  predicate Blank(v: string) {
    Skip(v, IsSp) == ""
  }

  /** `key` first and then `sf`, on one value. */
  function KeyThenSf(v: string, k: string): Result<Option<string>> {
    var w :- KeyValueOf(v, k);
    if w.None? then Ok(None)
    else
      var x :- SfValue(w.value);
      Ok(Some(x))
  }

  function SfThenKey(v: string, k: string): Result<Option<string>> {
    var w :- SfValue(v);
    KeyValueOf(w, k)
  }

  /** A list serialises to a value that also reads as the same dictionary, if any. */
  lemma {:induction false} ListAlsoDictionary(v: string)
    requires ParseList(v).Some? && !Blank(v)
    ensures SerList(ParseList(v).value).Some?
    ensures ParseDictionary(SerList(ParseList(v).value).value) == ParseDictionary(v)
  {
    hide ParseMembers, SFJ.AsFlags, ValidEntry, Run;
    var l := ParseList(v).value;
    RT.ParsedList(v);
    var w := SerList(l).value;
    RT.ListRoundTrip(l);
    RT.ParsedMembers(false, Skip(v, IsSp));
    RT.ParsedMembers(false, Skip(w, IsSp));
    var ms, ns := ParseMembers(false, Skip(v, IsSp)).value, ParseMembers(false, Skip(w, IsSp)).value;
    assert |ms| == |l| == |ns|;
    forall i | 0 <= i < |l| ensures ms[i] == ns[i] {
      assert ms[i] in ms && ns[i] in ns;
      assert Entries(ms)[i] == Entries(ns)[i];
    }
    assert ms == ns;
    SFJ.MembersBothWays(Skip(v, IsSp));
    SFJ.MembersBothWays(Skip(w, IsSp));
  }

  /** A selected member is already in canonical form. */
  lemma {:induction false} SelectedIsCanonical(v: string, k: string)
    requires KeyValueOf(v, k).Ok? && KeyValueOf(v, k).value.Some?
    ensures SfValue(KeyValueOf(v, k).value.value) == Ok(KeyValueOf(v, k).value.value)
  {
    hide ParseDictionary, ParseList, SerList, ValidEntry;
    var d := ParseDictionary(v).value;
    RT.ParsedDictionary(v);
    var e := OM.Get(d, k).value;
    var i :| 0 <= i < |d| && d[i] == (k, e);
    assert d[i] in d;
    assert ValidList([e]);
    SingleSome(e);
    RT.ListRoundTrip([e]);
  }

  lemma {:induction false} SingleSome(e: ListEntry)
    ensures SerList([e]).Some?
  {
  }

  lemma {:induction false} OneValue(v: string, k: string)
    requires !Blank(v)
    ensures SfThenKey(v, k) == KeyThenSf(v, k)
  {
    hide ParseDictionary, ParseList, SerList, SerDictionary;
    if KeyValueOf(v, k).Ok? && KeyValueOf(v, k).value.Some? {
      SelectedIsCanonical(v, k);
    }
    if ParseList(v).Some? {
      ListAlsoDictionary(v);
    } else if ParseDictionary(v).Some? {
      RT.ParsedDictionary(v);
      DictionarySome(ParseDictionary(v).value);
      RT.DictionaryRoundTrip(ParseDictionary(v).value);
    }
  }

  lemma {:induction false} DictionarySome(d: Dictionary)
    requires d != []
    ensures SerDictionary(d).Some?
  {
  }

  function AllSfThenKey(vs: seq<string>, k: string): Result<seq<string>> {
    var ws :- SfValues(vs);
    KeyValues(ws, k)
  }

  function AllKeyThenSf(vs: seq<string>, k: string): Result<seq<string>> {
    var ws :- KeyValues(vs, k);
    SfValues(ws)
  }

  lemma {:induction false} ErrorKinds(vs: seq<string>, k: string)
    ensures SfValues(vs).Err? ==> SfValues(vs).error == InvalidComponentParam
    ensures KeyValues(vs, k).Err? ==> KeyValues(vs, k).error == InvalidComponentParam
  {
    hide ParseList, ParseDictionary, SerList, SerDictionary;
    if vs != [] {
      ErrorKinds(vs[1..], k);
    }
  }

  /** On values that are not blank, `sf` and `key` commute. */
  lemma {:induction false} OrdersAgree(vs: seq<string>, k: string)
    requires forall v <- vs :: !Blank(v)
    ensures AllSfThenKey(vs, k) == AllKeyThenSf(vs, k)
  {
    hide SfValue, KeyValueOf, Blank;
    if vs != [] {
      assert vs[0] in vs;
      OneValue(vs[0], k);
      OrdersAgree(vs[1..], k);
      SplitHead(vs, k);
    }
  }

  /** Both orders, taken apart at the first value. */
  lemma {:induction false} SplitHead(vs: seq<string>, k: string)
    requires vs != []
    ensures AllSfThenKey(vs, k) == Combine(SfThenKey(vs[0], k), AllSfThenKey(vs[1..], k))
    ensures AllKeyThenSf(vs, k) == Combine(KeyThenSf(vs[0], k), AllKeyThenSf(vs[1..], k))
  {
    hide ParseList, ParseDictionary, SerList, SerDictionary;
    ErrorKinds(vs, k);
    ErrorKinds(vs[1..], k);
    if SfValues(vs).Ok? {
      var ws := SfValues(vs).value;
      assert ws[1..] == SfValues(vs[1..]).value;
      ErrorKinds(ws, k);
      ErrorKinds(ws[1..], k);
    } else if SfValue(vs[0]).Ok? {
    } else if SfValues(vs[1..]).Ok? {
      ErrorKinds(SfValues(vs[1..]).value, k);
    }
    if KeyValues(vs[1..], k).Ok? {
      var rest := KeyValues(vs[1..], k).value;
      ErrorKinds(rest, k);
      if KeyValueOf(vs[0], k).Ok? && KeyValueOf(vs[0], k).value.Some? {
        var x := KeyValueOf(vs[0], k).value.value;
        assert ([x] + rest)[1..] == rest;
      }
    }
  }

  function Combine(a: Result<Option<string>>, b: Result<seq<string>>): Result<seq<string>> {
    if a.Err? || b.Err? then Err(InvalidComponentParam)
    else Ok(if a.value.None? then b.value else [a.value.value] + b.value)
  }

  lemma {:induction false} BlankValue(v: string, k: string)
    requires Blank(v)
    ensures SfValue(v).Err? && ParseDictionary(v) == Some([]) && KeyValueOf(v, k) == Ok(None)
  {
    var none: seq<(string, ListEntry)> := [];
    assert ParseMembers(false, "") == Some(none) && ParseMembers(true, "") == Some(none);
  }

  lemma {:induction false} SfFailsOnBlank(vs: seq<string>)
    requires exists v <- vs :: Blank(v)
    ensures SfValues(vs).Err?
  {
    hide SfValue;
    if Blank(vs[0]) {
      BlankValue(vs[0], "");
    } else {
      assert vs == [vs[0]] + vs[1..];
      SfFailsOnBlank(vs[1..]);
    }
  }

  /** Selecting first fails exactly when some value is no dictionary. */
  lemma {:induction false} KeyFirstFails(vs: seq<string>, k: string)
    ensures AllKeyThenSf(vs, k).Err? <==> exists v <- vs :: ParseDictionary(v).None?
  {
    hide SfValue, ParseDictionary, SerList;
    if vs != [] {
      assert vs == [vs[0]] + vs[1..];
      KeyFirstFails(vs[1..], k);
      SplitHead(vs, k);
      if KeyValueOf(vs[0], k).Ok? && KeyValueOf(vs[0], k).value.Some? {
        SelectedIsCanonical(vs[0], k);
      }
    }
  }

  /** Both fail, or both succeed with the same value. */
  predicate Alike<T(==)>(a: Result<T>, b: Result<T>) {
    (a.Err? && b.Err?) || (a.Ok? && a == b)
  }

  /** The exact condition: the two orders can be told apart only by a blank value among values that
      are all dictionaries. */
  lemma {:induction false} OrdersAgreeExactly(vs: seq<string>, k: string)
    ensures Alike(ApplyParams([Sf, Key(k)], vs), ApplyParams([Key(k), Sf], vs)) <==> Commuting(vs)
  {
    hide SfValues, KeyValues, Blank, ParseDictionary;
    TwoParams(Sf, Key(k), vs);
    TwoParams(Key(k), Sf, vs);
    if forall v <- vs :: !Blank(v) {
      OrdersAgree(vs, k);
    } else {
      SfFailsOnBlank(vs);
      KeyFirstFails(vs, k);
    }
  }

  /** No value is blank, or some value is no dictionary. */
  predicate Commuting(vs: seq<string>) {
    (forall v <- vs :: !Blank(v)) || (exists v <- vs :: ParseDictionary(v).None?)
  }

  /** One empty value is enough to tell the orders apart. */
  lemma {:induction false} OrdersDiffer(k: string)
    ensures ApplyParams([Sf, Key(k)], [""]).Err? && ApplyParams([Key(k), Sf], [""]) == Ok([])
  {
    BlankValue("", k);
    TwoParams(Sf, Key(k), [""]);
    TwoParams(Key(k), Sf, [""]);
    OneBlank(k);
  }

  lemma {:induction false} OneBlank(k: string)
    ensures SfValues([""]).Err? && KeyValues([""], k) == Ok([])
  {
    hide ParseDictionary, ParseList;
    BlankValue("", k);
    var one: seq<string> := [""];
    assert one[1..] == [];
  }

  lemma {:induction false} TwoParams(p: ComponentParam, q: ComponentParam, vs: seq<string>)
    ensures ApplyParams([p, q], vs)
         == if ApplyParam(p, vs).Err? then ApplyParam(p, vs) else ApplyParam(q, ApplyParam(p, vs).value)
  {
    hide ApplyParam;
    assert [p, q][1..] == [q] && [q][1..] == [];
    if ApplyParam(p, vs).Ok? {
      var ws := ApplyParam(p, vs).value;
      assert ApplyParams([q], ws)
        == if ApplyParam(q, ws).Err? then ApplyParam(q, ws) else ApplyParams([], ApplyParam(q, ws).value);
    }
  }

  // ---- What a list of parameters means ----

  predicate Unsupported(p: ComponentParam) {
    p.Bs? || p.Tr? || p.Name?
  }

  function KeyOf(ps: seq<ComponentParam>): (r: Option<string>)
    ensures r.Some? ==> Key(r.value) in ps
    ensures r.None? ==> forall p <- ps :: !p.Key?
  {
    if ps == [] then None else if ps[0].Key? then Some(ps[0].key) else KeyOf(ps[1..])
  }

  /** Both `sf` and `key` are there, `sf` first. */
  predicate SfLeads(ps: seq<ComponentParam>) {
    ps != [] && if ps[0] == Sf then KeyOf(ps[1..]).Some? else !ps[0].Key? && SfLeads(ps[1..])
  }

  /** A selected member is canonical already, so `sf` adds nothing to `key`, except that in front of
      it it refuses blank values.  Nothing else about the order matters. */
  function Meaning(ps: seq<ComponentParam>, vs: seq<string>): Result<seq<string>> {
    if exists p <- ps :: Unsupported(p) then Err(NotYetImplemented)
    else if SfLeads(ps) && exists v <- vs :: Blank(v) then Err(InvalidComponentParam)
    else if KeyOf(ps).Some? then KeyValues(vs, KeyOf(ps).value)
    else if Sf in ps then SfValues(vs)
    else Ok(vs)
  }

  /** Selected members are canonical. */
  lemma {:induction false} KeyThenSfIsKey(vs: seq<string>, k: string)
    ensures AllKeyThenSf(vs, k) == KeyValues(vs, k)
  {
    hide SfValue, KeyValueOf;
    if vs != [] {
      KeyThenSfIsKey(vs[1..], k);
      if KeyValueOf(vs[0], k).Ok? && KeyValueOf(vs[0], k).value.Some? && KeyValues(vs[1..], k).Ok? {
        SelectedIsCanonical(vs[0], k);
        var x, rest := KeyValueOf(vs[0], k).value.value, KeyValues(vs[1..], k).value;
        assert ([x] + rest)[1..] == rest;
      }
    }
  }

  /** `sf` in front of `key`. */
  lemma {:induction false} SfThenKeyMeans(vs: seq<string>, k: string)
    ensures Alike(AllSfThenKey(vs, k),
                  if exists v <- vs :: Blank(v) then Err(InvalidComponentParam) else KeyValues(vs, k))
  {
    hide SfValues, KeyValues, Blank;
    if exists v <- vs :: Blank(v) {
      SfFailsOnBlank(vs);
    } else {
      OrdersAgree(vs, k);
      KeyThenSfIsKey(vs, k);
    }
  }

  lemma {:induction false} HeadApart(ps: seq<ComponentParam>)
    requires OneOfEachKind(ps) && ps != []
    ensures OneOfEachKind(ps[1..]) && ps[0] !in ps[1..]
    ensures ps[0].Key? ==> KeyOf(ps[1..]).None?
    ensures forall p :: p in ps <==> p == ps[0] || p in ps[1..]
  {
    hide KeyOf;
    var rest := ps[1..];
    assert ps == [ps[0]] + rest;
    forall i | 0 <= i < |rest| ensures ParamPair(rest[i]).0 != ParamPair(ps[0]).0 {
      assert ParamPairs(ps)[i + 1].0 != ParamPairs(ps)[0].0;
    }
    forall i, j | 0 <= i < j < |rest| ensures ParamPairs(rest)[i].0 != ParamPairs(rest)[j].0 {
      assert ParamPairs(ps)[i + 1].0 != ParamPairs(ps)[j + 1].0;
    }
  }

  /** Applying the parameters one after the other does what they mean. */
  lemma {:induction false} ParamsMean(ps: seq<ComponentParam>, vs: seq<string>)
    requires OneOfEachKind(ps)
    ensures Alike(ApplyParams(ps, vs), Meaning(ps, vs))
    decreases ps
  {
    hide SfValues, KeyValues, Blank, OneOfEachKind;
    if ps != [] {
      var p, rest := ps[0], ps[1..];
      HeadApart(ps);
      assert (exists q <- ps :: Unsupported(q)) <==> Unsupported(p) || exists q <- rest :: Unsupported(q);
      match p {
        case Req =>
          ParamsMean(rest, vs);
        case Sf =>
          if SfValues(vs).Ok? { ParamsMean(rest, SfValues(vs).value); }
          NoSfNoLead(rest);
          if KeyOf(rest).Some? { SfThenKeyMeans(vs, KeyOf(rest).value); }
        case Key(k) =>
          if KeyValues(vs, k).Ok? { ParamsMean(rest, KeyValues(vs, k).value); }
          NoKeyNoLead(rest);
          KeyThenSfIsKey(vs, k);
        case _ =>
      }
    }
  }

  lemma {:induction false} NoSfNoLead(ps: seq<ComponentParam>)
    requires Sf !in ps
    ensures !SfLeads(ps)
  {
    if ps != [] {
      assert ps[0] in ps;
      NoSfNoLead(ps[1..]);
    }
  }

  lemma {:induction false} NoKeyNoLead(ps: seq<ComponentParam>)
    requires KeyOf(ps).None?
    ensures !SfLeads(ps)
  {
    if ps != [] { NoKeyNoLead(ps[1..]); }
  }

  lemma {:induction false} KeyOfUnique(ps: seq<ComponentParam>, k: string)
    requires OneOfEachKind(ps) && Key(k) in ps
    ensures KeyOf(ps) == Some(k)
  {
    hide KeyOf;
    var i :| 0 <= i < |ps| && ps[i] == Key(k);
    assert KeyOf(ps).Some?;
    var j :| 0 <= j < |ps| && ps[j] == Key(KeyOf(ps).value);
    forall x, y | 0 <= x < y < |ps| ensures !(ps[x].Key? && ps[y].Key?) {
      assert ParamPairs(ps)[x].0 != ParamPairs(ps)[y].0;
    }
  }

  lemma {:induction false} LeaderHasBoth(ps: seq<ComponentParam>)
    requires SfLeads(ps)
    ensures Sf in ps && KeyOf(ps).Some?
  {
    if ps[0] != Sf { LeaderHasBoth(ps[1..]); }
  }

  /** One of each kind implies that nothing is there twice. */
  lemma {:induction false} KindsDistinct(ps: seq<ComponentParam>)
    requires OneOfEachKind(ps)
    ensures Uniqueness.Distinct(ps)
  {
    forall i, j | 0 <= i < j < |ps| ensures ps[i] != ps[j] {
      assert ParamPairs(ps)[i].0 != ParamPairs(ps)[j].0;
    }
  }

  /** Both fail, or both give the same value. */
  predicate SameValue(a: Result<Component>, b: Result<Component>) {
    (a.Err? && b.Err?) || (a.Ok? && b.Ok? && a.value.value == b.value.value)
  }

  /** The exact condition under which two identifiers that are equal as parameter sets give the same
      value, or both fail: either they order `sf` and `key` alike (which holds in particular if they
      do not have both), or the values do not show the order, or nothing works anyway. */
  lemma {:induction false} SameSetSameValue(a: ComponentId, b: ComponentId, vs: seq<string>)
    requires OneOfEachKind(a.params) && OneOfEachKind(b.params) && SameId(a, b)
    ensures SameValue(BuildField(a, vs), BuildField(b, vs)) <==>
      || (SfLeads(a.params) <==> SfLeads(b.params))
      || Commuting(vs)
      || exists p <- a.params :: Unsupported(p)
  {
    hide SfValues, KeyValues, ApplyParams, Blank, ParseDictionary, OneOfEachKind, Uniqueness.Distinct, SfLeads;
    KindsDistinct(a.params);
    KindsDistinct(b.params);
    Uniqueness.SameBack(a.params, b.params);
    ParamsMean(a.params, vs);
    ParamsMean(b.params, vs);
    assert (exists p <- a.params :: Unsupported(p)) <==> (exists p <- b.params :: Unsupported(p));
    if KeyOf(a.params).Some? {
      KeyOfUnique(b.params, KeyOf(a.params).value);
    }
    if SfLeads(a.params) { LeaderHasBoth(a.params); }
    if SfLeads(b.params) { LeaderHasBoth(b.params); }
    if KeyOf(a.params).Some? {
      KeyFirstFails(vs, KeyOf(a.params).value);
      KeyThenSfIsKey(vs, KeyOf(a.params).value);
    }
  }

  // ---- More values ----

  lemma {:induction false} KeyValuesAppend(a: seq<string>, b: seq<string>, k: string)
    requires KeyValues(b, k).Ok?
    ensures KeyValues(a + b, k).Ok? <==> KeyValues(a, k).Ok?
    ensures KeyValues(a, k).Ok? ==> KeyValues(a + b, k).value == KeyValues(a, k).value + KeyValues(b, k).value
  {
    hide KeyValueOf;
    if a == [] {
      assert a + b == b;
      assert KeyValues(a, k).value + KeyValues(b, k).value == KeyValues(b, k).value;
    } else {
      assert (a + b)[1..] == a[1..] + b;
      KeyValuesAppend(a[1..], b, k);
    }
  }

  lemma {:induction false} SfValuesAppend(a: seq<string>, b: seq<string>)
    requires SfValues(a).Ok? && SfValues(b).Ok?
    ensures SfValues(a + b) == Ok(SfValues(a).value + SfValues(b).value)
  {
    hide SfValue;
    if a == [] {
      assert a + b == b;
      assert SfValues(a).value + SfValues(b).value == SfValues(b).value;
    } else {
      assert (a + b)[1..] == a[1..] + b;
      SfValuesAppend(a[1..], b);
      var x, y, z := [SfValue(a[0]).value], SfValues(a[1..]).value, SfValues(b).value;
      assert x + (y + z) == x + y + z;
    }
  }

  // ---- Missing fields ----

  /** The first parameter that does anything. */
  function Leading(ps: seq<ComponentParam>): Option<ComponentParam> {
    if ps == [] then None else if ps[0].Req? then Leading(ps[1..]) else Some(ps[0])
  }

  /** A missing field only fails for a parameter that is not supported, and is empty otherwise. */
  lemma {:induction false} MissingIsEmpty(id: ComponentId)
    ensures BuildField(id, []).Err? <==> exists p <- id.params :: Unsupported(p)
    ensures BuildField(id, []).Ok? ==> BuildField(id, []).value == Component(id, Plain(""))
  {
    hide ApplyParams;
    NothingApplied(id.params);
  }

  lemma {:induction false} NothingApplied(ps: seq<ComponentParam>)
    ensures ApplyParams(ps, []) == if exists p <- ps :: Unsupported(p) then Err(NotYetImplemented) else Ok([])
    decreases ps
  {
    if ps != [] {
      NothingApplied(ps[1..]);
      var p, rest := ps[0], ps[1..];
      assert ps == [p] + rest;
      assert (exists q <- ps :: Unsupported(q)) <==> Unsupported(p) || exists q <- rest :: Unsupported(q);
      assert Unsupported(p) || ApplyParam(p, []) == Ok([]);
    }
  }

  /** A field that is missing cannot be told from one that is empty, unless `sf` comes first. */
  lemma {:induction false} MissingLooksEmpty(id: ComponentId)
    ensures BuildField(id, []) == BuildField(id, [""]) <==> Leading(id.params) != Some(Sf)
  {
    hide ApplyParams;
    EmptyApplied(id.params);
    NothingApplied(id.params);
  }

  lemma {:induction false} EmptyApplied(ps: seq<ComponentParam>)
    ensures Leading(ps) == Some(Sf) ==> ApplyParams(ps, [""]) == Err(InvalidComponentParam)
    ensures Leading(ps) != Some(Sf) ==>
      var a, b := ApplyParams(ps, []), ApplyParams(ps, [""]);
      a == b || (a == Ok([]) && b == Ok([""]))
    decreases ps
  {
    hide ApplyParam, SfValues, KeyValues;
    if ps != [] {
      OneApplied(ps[0]);
      if ps[0].Req? { EmptyApplied(ps[1..]); }
    }
  }

  /** One parameter, on a missing and on an empty field. */
  lemma {:induction false} OneApplied(p: ComponentParam)
    ensures p.Req? ==> ApplyParam(p, []) == Ok([]) && ApplyParam(p, [""]) == Ok([""])
    ensures p.Key? ==> ApplyParam(p, []) == Ok([]) && ApplyParam(p, [""]) == Ok([])
    ensures p == Sf ==> ApplyParam(p, [""]) == Err(InvalidComponentParam)
    ensures Unsupported(p) ==> ApplyParam(p, []) == ApplyParam(p, [""]) == Err(NotYetImplemented)
  {
    hide SfValue, KeyValueOf;
    match p
    case Sf =>
      OneBlank("");
      ErrorKinds([""], "");
    case Key(k) => OneBlank(k);
    case _ =>
  }
}
