/** What a signing call writes is not checked.  Exactly which requests are read back. */
module Necessity {
  import opened Wrappers
  import opened Text
  import opened StructuredFields
  import opened SignatureParams
  import opened SignatureHeaders
  import opened Message
  import opened Signing
  import opened SignatureFields
  import opened Readability
  import opened Escaping
  import Merging
  import SFJ = StructuredFieldsJoin
  import RT = StructuredFieldsRoundTrip
  import OM = OrderedMap

  // ---- Counting backslashes over several members ----

  /** The backslashes of all written values. */
  function WrittenMarks(hs: seq<SignatureHeaders>): nat {
    if hs == [] then 0 else Marks(BACKSLASH, InputValue(hs[0])) + WrittenMarks(hs[1..])
  }

  lemma {:induction false} JoinMarks(hs: seq<SignatureHeaders>)
    ensures Marks(BACKSLASH, Join(InputValues(hs), ", ")) == WrittenMarks(hs)
  {
    hide Marks, InputValue;
    if hs == [] {
      NoMarks(BACKSLASH, "");
    } else {
      var v, rest := InputValue(hs[0]), InputValues(hs[1..]);
      JoinMarks(hs[1..]);
      assert InputValues(hs) == [v] + rest;
      if rest == [] {
        assert [v] + rest == [v];
        NoMarks(BACKSLASH, "");
      } else {
        JoinCons(v, rest, ", ");
        NoMarks(BACKSLASH, ", ");
        MarksAppend(BACKSLASH, v, ", ");
        MarksAppend(BACKSLASH, v + ", ", Join(rest, ", "));
      }
    }
  }

  /** The entry is valid, under the signature's name, and converts to its parameters. */
  ghost predicate Conveys(m: (string, ListEntry), h: SignatureHeaders) {
    m.0 == h.name && ValidKey(m.0) && ValidEntry(m.1) && ParamsFromEntry(m.1) == Ok(h.params)
  }

  ghost predicate HasEntry(d: Dictionary, h: SignatureHeaders) {
    exists m <- d :: Conveys(m, h)
  }

  /** An entry costs at least what its printed form holds, and no more only if it needs no escapes. */
  lemma {:induction false} ConveyedCost(m: (string, ListEntry), h: SignatureHeaders)
    requires Conveys(m, h)
    ensures EntryCost(m.1) >= Marks(BACKSLASH, InputValue(h))
    ensures EntryCost(m.1) <= Marks(BACKSLASH, InputValue(h)) ==> Writable(h)
  {
    hide PrintParams, ParamsFromEntry, Marks, ItemsCost, ParamsCost, TextsCost, ItemCost;
    hide WellFormedParams, PlainParams, PrintableParams, ValidEntry, ValidKey, PrintIds, PrintRest;
    var p := h.params;
    assert m.1.InnerEntry? by { EntryIsInner(m.1); }
    EntrySpends(m.1);
    KeyPlain(h.name);
    NoMarks(BACKSLASH, h.name + "=");
    MarksAppend(BACKSLASH, h.name + "=", PrintParams(p));
    PrintedBackslashes(p);
    IdsPrintCost(p.covered);
    RestPrintCost(p);
    if EntryCost(m.1) <= Marks(BACKSLASH, InputValue(h)) {
      SpentIsPlain(p);
      EntryParsed(m.1);
    }
  }

  lemma {:induction false} ConveyedCosts(d: Dictionary, hs: seq<SignatureHeaders>)
    requires |d| == |hs| && forall i | 0 <= i < |hs| :: Conveys(d[i], hs[i])
    ensures EntriesCost(d) >= WrittenMarks(hs)
  {
    hide Conveys, EntryCost, Marks, InputValue;
    if hs != [] {
      ConveyedCost(d[0], hs[0]);
      ConveyedCosts(d[1..], hs[1..]);
    }
  }

  /** If together the entries cost no more than was written, then none needs escapes. */
  lemma {:induction false} NoneEscaped(d: Dictionary, hs: seq<SignatureHeaders>)
    requires |d| == |hs| && forall i | 0 <= i < |hs| :: Conveys(d[i], hs[i])
    requires EntriesCost(d) <= WrittenMarks(hs)
    ensures forall h <- hs :: Writable(h)
  {
    hide Conveys, EntryCost, Marks, InputValue, Writable;
    if hs != [] {
      ConveyedCost(d[0], hs[0]);
      ConveyedCosts(d[1..], hs[1..]);
      NoneEscaped(d[1..], hs[1..]);
      assert hs == [hs[0]] + hs[1..];
    }
  }

  lemma {:induction false} CostSplit(a: Dictionary, b: Dictionary)
    ensures EntriesCost(a + b) == EntriesCost(a) + EntriesCost(b)
  {
    hide EntryCost;
    if a == [] {
      assert a + b == b;
    } else {
      assert (a + b)[1..] == a[1..] + b;
      CostSplit(a[1..], b);
    }
  }

  /** Members picked from a dictionary cost no more than the dictionary. */
  lemma {:induction false} PickedCost(d: Dictionary, picked: Dictionary)
    requires OM.UniqueKeys(picked) && forall m <- picked :: m in d
    ensures EntriesCost(picked) <= EntriesCost(d)
    decreases |d|
  {
    hide EntryCost;
    if d == [] {
      NothingPicked(d, picked);
    } else if d[0] in picked {
      var i :| 0 <= i < |picked| && picked[i] == d[0];
      var a, b := picked[..i], picked[i + 1..];
      assert picked == a + ([d[0]] + b);
      CostSplit(a, [d[0]] + b);
      CostSplit([d[0]], b);
      CostSplit(a, b);
      assert [d[0]][1..] == [];
      WithoutOne(d, picked, i);
      PickedCost(d[1..], a + b);
    } else {
      assert d == [d[0]] + d[1..];
      PickedCost(d[1..], picked);
    }
  }

  lemma {:induction false} NothingPicked(d: Dictionary, picked: Dictionary)
    requires forall m <- picked :: m in d
    ensures d == [] ==> picked == []
  {
    if picked != [] { assert picked[0] in picked; }
  }

  lemma {:induction false} WithoutOne(d: Dictionary, picked: Dictionary, i: nat)
    requires OM.UniqueKeys(picked) && (forall m <- picked :: m in d)
    requires d != [] && i < |picked| && picked[i] == d[0]
    ensures var rest := picked[..i] + picked[i + 1..];
            OM.UniqueKeys(rest) && forall m <- rest :: m in d[1..]
  {
    var rest := picked[..i] + picked[i + 1..];
    assert forall j | 0 <= j < |rest| :: rest[j] == picked[if j < i then j else j + 1];
    assert d == [d[0]] + d[1..];
    forall m <- rest ensures m in d[1..] {
      var j :| 0 <= j < |rest| && rest[j] == m;
      var k := if j < i then j else j + 1;
      assert picked[k] in picked;
      assert picked[k].0 != picked[i].0;
    }
  }

  // ---- What a message with written values is read as ----

  /** The names are distinct and none is in use. */
  ghost predicate FreshNames(m: Message, names: seq<string>) {
    && (forall i, j | 0 <= i < j < |names| :: names[i] != names[j])
    && forall k <- names :: !OM.HasKey(InputsOf(m), k)
  }

  /** The message can be read, and holds all of these. */
  predicate AllRead(n: Message, hs: seq<SignatureHeaders>) {
    SignatureMap(n).Ok? && forall h <- hs :: (h.name, h) in SignatureMap(n).value
  }

  /** The parameters' entry under a name, in the joined values. */
  lemma {:induction false} ReadConveys(n: Message, h: SignatureHeaders)
    requires SignatureMap(n).Ok? && (h.name, h) in SignatureMap(n).value
    ensures var t := Join(GetAll(n.headers, SIGNATURE_INPUT), ", ");
            && ParseDictionary(t).Some?
            && HasEntry(ParseDictionary(t).value, h)
  {
    hide ParseDictionary, PairUp, ParamsFromEntry, VisibleValue, ValidKey, ValidEntry, Join;
    var t, s := Join(GetAll(n.headers, SIGNATURE_INPUT), ", "), Join(GetAll(n.headers, SIGNATURE), ", ");
    RT.ParsedDictionary(t);
    RT.ParsedDictionary(s);
    var ds, di, r := ParseDictionary(s).value, ParseDictionary(t).value, SignatureMap(n).value;
    PairingExact(ds, di, r);
    var i :| 0 <= i < |r| && r[i] == (h.name, h);
    assert PairedAt(ds, di[i], r[i]);
    assert di[i] in di && Conveys(di[i], h);
  }

  /** What is written behind readable values is read on its own. */
  lemma {:induction false} WrittenReads(vals: seq<string>, more: seq<string>, k: string)
    requires Spelled(vals) && more != [] && ValidKey(k) && k <= more[0] && more[0] != ""
    requires ParseDictionary(Join(vals + more, ", ")).Some?
    ensures ParseDictionary(Join(more, ", ")).Some?
    ensures ParseDictionary(Join(vals + more, ", ")).value
         == OM.PutAll(OldDictionary(vals), ParseDictionary(Join(more, ", ")).value)
  {
    hide ParseMembers, Run, Skip, VisibleValue, Join, OM.PutAll, KeyChar;
    var w := Join(more, ", ");
    StartsWithKey(more, k);
    if vals == [] {
      assert vals + more == more;
      var d := ParseDictionary(w).value;
      RT.ParsedDictionary(w);
      OM.PutAllFresh([], d);
      assert [] + d == d;
    } else {
      var o := Join(vals, ", ");
      JoinAppend(vals, more, ", ");
      var u := Skip(o, IsSp);
      RT.ParsedDictionary(o);
      SFJ.LeadingSpaces(o, ", " + w);
      assert o + ", " + w == o + (", " + w) && u + ", " + w == u + (", " + w);
      Merging.RestReads(true, u, w);
      RT.ParsedDictionary(w);
      SFJ.JoinIsMerge(o, w);
    }
  }

  lemma {:induction false} StartsWithKey(more: seq<string>, k: string)
    requires more != [] && ValidKey(k) && k <= more[0]
    ensures var s := Skip(Join(more, ", "), IsSp); s != "" && !IsOws(s[0])
  {
    var w := Join(more, ", ");
    assert w[0] == more[0][0] == k[0];
    assert Run(w, IsSp) == 0;
  }

  /** Signatures that are read back under fresh names were writable. */
  lemma {:induction false} ReadIsWritable(m: Message, hs: seq<SignatureHeaders>, n: Message)
    requires FieldsSpelled(m) && hs != [] && GrownBy(m.headers, n.headers, hs)
    requires FreshNames(m, HeaderNames(hs)) && AllRead(n, hs)
    ensures forall h <- hs :: Writable(h)
  {
    hide ParseDictionary, Join, SignatureMap, InputValue, Spelled, OldDictionary, Conveys, OM.PutAll, EntriesCost;
    hide WrittenMarks, Marks, Writable;
    var vals, more := GetAll(m.headers, SIGNATURE_INPUT), InputValues(hs);
    assert GetAll(n.headers, SIGNATURE_INPUT) == vals + more;
    var t, w := Join(vals + more, ", "), Join(more, ", ");
    forall h <- hs ensures ParseDictionary(t).Some? && HasEntry(ParseDictionary(t).value, h) {
      ReadConveys(n, h);
    }
    assert hs[0] in hs;
    var first :| first in ParseDictionary(t).value && Conveys(first, hs[0]);
    NameInFront(first, hs[0]);
    WrittenReads(vals, more, hs[0].name);
    var d := ParseDictionary(w).value;
    PutAllFrom(InputsOf(m), d);
    forall i | 0 <= i < |hs| ensures HasEntry(d, hs[i]) {
      assert hs[i] in hs;
      var x :| x in ParseDictionary(t).value && Conveys(x, hs[i]);
      assert HeaderNames(hs)[i] in HeaderNames(hs);
      NotThere(InputsOf(m), x, hs[i]);
    }
    var picked := Picked(d, hs);
    PickedUnique(d, hs, picked);
    PickedCost(d, picked);
    DictionarySpends(w);
    JoinMarks(hs);
    NoneEscaped(picked, hs);
  }

  lemma {:induction false} NameInFront(m: (string, ListEntry), h: SignatureHeaders)
    requires Conveys(m, h)
    ensures ValidKey(h.name) && h.name <= InputValue(h) && InputValue(h) != ""
  {
    hide PrintParams, ValidEntry, ParamsFromEntry;
  }

  lemma {:induction false} NotThere(d: Dictionary, m: (string, ListEntry), h: SignatureHeaders)
    requires Conveys(m, h) && !OM.HasKey(d, h.name)
    ensures m !in d
  {
    hide ValidEntry, ParamsFromEntry, ValidKey;
  }

  /** The entries of the signatures, in their order. */
  ghost function Picked(d: Dictionary, hs: seq<SignatureHeaders>): (r: Dictionary)
    requires forall i | 0 <= i < |hs| :: HasEntry(d, hs[i])
    ensures |r| == |hs| && forall i | 0 <= i < |hs| :: r[i] in d && Conveys(r[i], hs[i])
  {
    if hs == [] then []
    else
      assert HasEntry(d, hs[0]);
      var x :| x in d && Conveys(x, hs[0]);
      assert forall i | 0 <= i < |hs[1..]| :: hs[1..][i] == hs[i + 1];
      [x] + Picked(d, hs[1..])
  }

  lemma {:induction false} PickedUnique(d: Dictionary, hs: seq<SignatureHeaders>, picked: Dictionary)
    requires |picked| == |hs| && forall i | 0 <= i < |hs| :: picked[i] in d && Conveys(picked[i], hs[i])
    requires forall i, j | 0 <= i < j < |hs| :: HeaderNames(hs)[i] != HeaderNames(hs)[j]
    ensures OM.UniqueKeys(picked)
  {
    hide ValidEntry, ParamsFromEntry, ValidKey;
    forall i, j | 0 <= i < j < |picked| ensures picked[i].0 != picked[j].0 {
      assert picked[i].0 == HeaderNames(hs)[i] && picked[j].0 == HeaderNames(hs)[j];
    }
  }

  // ---- The exact condition ----

  /** A successful call has written all of its signatures. */
  lemma {:induction false} OneWritten(m: Message, qs: seq<SignRequest>, reqFor: Option<Request>)
    requires SetSignatures(m, qs, reqFor).1.Ok?
    ensures Plan(m, qs, reqFor).Ok?
    ensures GrownBy(m.headers, SetSignatures(m, qs, reqFor).0.headers, Plan(m, qs, reqFor).value)
  {
    hide AppendAll, Plan, GrownBy;
    PairedGrowth(m, qs, reqFor);
    var hs := Plan(m, qs, reqFor).value;
    assert hs[..|hs|] == hs;
  }

  /** On a message whose fields are absent or spell members, all signatures of a successful call under
      fresh names are read back, with their parameters, exactly when every request is proper and the
      call writes every name that has no partner. */
  lemma {:induction false} SignedReadsExactly(m: Message, qs: seq<SignRequest>, reqFor: Option<Request>)
    requires FieldsSpelled(m) && FreshNames(m, NamesOf(qs)) && qs != []
    requires SetSignatures(m, qs, reqFor).1.Ok?
    ensures Plan(m, qs, reqFor).Ok?
    ensures var hs := Plan(m, qs, reqFor).value;
            forall i | 0 <= i < |qs| :: hs[i].name == NameOf(qs[i]) && hs[i].params == qs[i].params
    ensures AllRead(SetSignatures(m, qs, reqFor).0, Plan(m, qs, reqFor).value) <==>
      (forall q <- qs :: Proper(q)) && Receptive(m, NamesOf(qs))
  {
    hide AppendAll, Proper, SignatureMap, GrownBy, BuildBase, BuildHeaders, Receptive, FieldsSpelled, Holds, Writable;
    OneWritten(m, qs, reqFor);
    PlanShape(m, qs, reqFor);
    var hs := Plan(m, qs, reqFor).value;
    forall i | 0 <= i < |qs| ensures hs[i].name == NameOf(qs[i]) && hs[i].params == qs[i].params {
      assert BuildBase(m, qs[i].params, reqFor).Ok?;
    }
    PlanNames(m, qs, reqFor);
    hide Plan, SetSignatures;
    if (forall q <- qs :: Proper(q)) && Receptive(m, NamesOf(qs)) {
      ProperIsRead(m, qs, reqFor);
    }
    if AllRead(SetSignatures(m, qs, reqFor).0, hs) {
      ReadIsProper(m, qs, reqFor);
    }
  }

  lemma {:induction false} ProperIsRead(m: Message, qs: seq<SignRequest>, reqFor: Option<Request>)
    requires FieldsSpelled(m) && FreshNames(m, NamesOf(qs)) && qs != []
    requires SetSignatures(m, qs, reqFor).1.Ok? && Plan(m, qs, reqFor).Ok?
    requires (forall q <- qs :: Proper(q)) && Receptive(m, NamesOf(qs))
    ensures AllRead(SetSignatures(m, qs, reqFor).0, Plan(m, qs, reqFor).value)
  {
    hide AppendAll, SignatureMap, GrownBy, BuildBase, BuildHeaders, Receptive, FieldsSpelled, Holds, Writable;
    PlanShape(m, qs, reqFor);
    PlanNames(m, qs, reqFor);
    var hs, n := Plan(m, qs, reqFor).value, SetSignatures(m, qs, reqFor).0;
    hide Plan, SetSignatures;
    ReadableExactly(m, qs, reqFor);
    SigningWrites(m, qs, reqFor);
    FieldsGrow(m, hs, n);
    forall h <- hs ensures (h.name, h) in SignatureMap(n).value {
      var i :| 0 <= i < |hs| && hs[i] == h;
      forall j | i < j < |hs| ensures hs[j].name != hs[i].name { assert NamesOf(qs)[i] != NamesOf(qs)[j]; }
      HoldsLast(m, hs, n, i);
      HoldsExactly(n, h);
    }
  }

  lemma {:induction false} ReadIsProper(m: Message, qs: seq<SignRequest>, reqFor: Option<Request>)
    requires FieldsSpelled(m) && FreshNames(m, NamesOf(qs)) && qs != []
    requires SetSignatures(m, qs, reqFor).1.Ok? && Plan(m, qs, reqFor).Ok?
    requires AllRead(SetSignatures(m, qs, reqFor).0, Plan(m, qs, reqFor).value)
    ensures (forall q <- qs :: Proper(q)) && Receptive(m, NamesOf(qs))
  {
    hide AppendAll, Proper, SignatureMap, GrownBy, BuildBase, BuildHeaders, Receptive, FieldsSpelled, Holds, Writable;
    PlanShape(m, qs, reqFor);
    PlanNames(m, qs, reqFor);
    var hs, n := Plan(m, qs, reqFor).value, SetSignatures(m, qs, reqFor).0;
    hide Plan, SetSignatures;
    OneWritten(m, qs, reqFor);
    ReadIsWritable(m, hs, n);
    forall q <- qs ensures Proper(q) {
      var i :| 0 <= i < |qs| && qs[i] == q;
      assert hs[i] in hs;
      ProperOfHeader(q, hs[i]);
    }
    ReadableExactly(m, qs, reqFor);
  }

  lemma {:induction false} ProperOfHeader(q: SignRequest, h: SignatureHeaders)
    requires Writable(h) && h.name == NameOf(q) && h.params == q.params
    ensures Proper(q)
  {
  }
}
