/** The signatures a message carries, and how they grow when more are written. */
module SignatureFields {
  import opened Wrappers
  import opened Text
  import opened StructuredFields
  import opened ComponentId
  import opened SignatureParams
  import opened SignatureHeaders
  import opened Message
  import opened Signing
  import SFJ = StructuredFieldsJoin
  import RT = StructuredFieldsRoundTrip
  import Base64
  import OM = OrderedMap

  // ---- The signatures of a message ----

  predicate HasSignature(m: Message) {
    GetAll(m.headers, SIGNATURE) != [] && GetAll(m.headers, SIGNATURE_INPUT) != []
  }

  function SignatureMap(m: Message): Result<HeadersMap> {
    if !HasSignature(m) then Err(NoSignatureHeaders)
    else
      var inputs :- ToTexts(GetAll(m.headers, SIGNATURE_INPUT));
      var signatures :- ToTexts(GetAll(m.headers, SIGNATURE));
      TryParse(Join(signatures, ", "), Join(inputs, ", "))
  }

  /** Either there is no signature field at all, or the fields parse and hold a signature. */
  predicate Ready(m: Message) {
    || (GetAll(m.headers, SIGNATURE) == [] && GetAll(m.headers, SIGNATURE_INPUT) == [])
    || (SignatureMap(m).Ok? && SignatureMap(m).value != [])
  }

  function MapOf(m: Message): HeadersMap
    requires Ready(m)
  {
    if SignatureMap(m).Ok? then SignatureMap(m).value else []
  }

  /** The signature can be written and read back. */
  ghost predicate Writable(h: SignatureHeaders) {
    ValidKey(h.name) && WellFormedParams(h.params)
  }

  lemma {:induction false} SerVisible(p: SigParams)
    requires WellFormedParams(p)
    ensures VisibleValue(PrintParams(p))
  {
    hide WellFormedParams, PrintId, PrintRest, Join;
    IdTextsVisible(p);
    JoinVisible(IdTexts(p.covered), " ");
    RestVisible(p);
  }

  lemma {:induction false} IdTextsVisible(p: SigParams)
    requires WellFormedParams(p)
    ensures forall t <- IdTexts(p.covered) :: VisibleValue(t)
  {
    hide PlainId, ProperId, PrintId, VisibleValue, SameId;
    forall t <- IdTexts(p.covered) ensures VisibleValue(t) {
      var i :| 0 <= i < |p.covered| && IdTexts(p.covered)[i] == t;
      assert p.covered[i] in p.covered;
      IdVisible(p.covered[i]);
    }
  }

  lemma {:induction false} IdVisible(id: ComponentId)
    requires PlainId(id)
    ensures VisibleValue(PrintId(id))
  {
    hide ParamText, PlainParam, Join;
    forall t <- ParamTexts(id.params) ensures VisibleValue(t) {
      var i :| 0 <= i < |id.params| && ParamTexts(id.params)[i] == t;
      assert id.params[i] in id.params;
      ParamVisible(id.params[i]);
    }
    JoinVisible(ParamTexts(id.params), ";");
  }

  lemma {:induction false} ParamVisible(p: ComponentParam)
    requires PlainParam(p)
    ensures VisibleValue(ParamText(p))
  {
  }

  lemma {:induction false} JoinVisible(texts: seq<string>, sep: string)
    requires VisibleValue(sep) && forall t <- texts :: VisibleValue(t)
    ensures VisibleValue(Join(texts, sep))
  {
    if |texts| > 1 {
      assert texts[0] in texts;
      JoinVisible(texts[1..], sep);
    }
  }

  lemma {:induction false} RestVisible(p: SigParams)
    requires WellFormedParams(p)
    ensures VisibleValue(PrintRest(p))
  {
    hide PlainId, ProperId, SameId;
    PieceVisible("created", p.created, "nonce", p.nonce);
    PieceVisible("expires", p.expires, "alg", p.alg);
    PieceVisible("expires", p.expires, "keyid", p.keyid);
    PieceVisible("expires", p.expires, "tag", p.tag);
    hide TimeText, QuotedText;
  }

  lemma {:induction false} PieceVisible(k: string, t: Option<nat>, j: string, v: Option<string>)
    requires VisibleValue(k) && VisibleValue(j) && PlainOption(v)
    ensures VisibleValue(TimeText(k, t)) && VisibleValue(QuotedText(j, v))
  {
    if t.Some? {
      assert forall c <- PrintNat(t.value) :: ' ' <= c <= '~';
    }
  }

  lemma {:induction false} WritableIsVisible(h: SignatureHeaders)
    requires Writable(h)
    ensures VisibleValue(InputValue(h)) && VisibleValue(SignatureValue(h))
    ensures LegalValue(InputValue(h)) && LegalValue(SignatureValue(h))
  {
    hide PrintParams, Base64.Encode, WellFormedParams;
    SerVisible(h.params);
    Base64.EncodeAlphabet(h.signature);
    KeyVisible(h.name);
  }

  lemma {:induction false} KeyVisible(k: string)
    requires ValidKey(k)
    ensures VisibleValue(k)
  {
  }

  /** What one more field value does to the dictionary that the joined values spell. */
  lemma {:induction false} JoinedPut(vals: seq<string>, v: string, k: string, e: ListEntry)
    requires ParseDictionary(v) == Some([(k, e)])
    requires vals != [] ==> ParseDictionary(Join(vals, ", ")).Some? && ParseDictionary(Join(vals, ", ")).value != []
    ensures ParseDictionary(Join(vals + [v], ", "))
         == Some(OM.Put(if vals == [] then [] else ParseDictionary(Join(vals, ", ")).value, k, e))
  {
    hide ParseDictionary, Join;
    JoinSnoc(vals, v, ", ");
    if vals != [] {
      SFJ.JoinIsMerge(Join(vals, ", "), v);
      var d := ParseDictionary(Join(vals, ", ")).value;
      PutAllOne(d, k, e);
    }
  }

  lemma {:induction false} PutAllOne(d: Dictionary, k: string, e: ListEntry)
    ensures OM.PutAll(d, [(k, e)]) == OM.Put(d, k, e)
  {
    var n: Dictionary := [(k, e)];
    assert n[1..] == [];
    assert OM.PutAll(OM.Put(d, k, e), []) == OM.Put(d, k, e);
  }

  /** Writing one more signature to a ready message inserts it into the message's signature map. */
  lemma {:induction false} GrowOne(m: Message, h: SignatureHeaders, n: Message)
    requires Ready(m) && Writable(h) && GrownBy(m.headers, n.headers, [h])
    ensures Ready(n) && MapOf(n) == OM.Put(MapOf(m), h.name, h)
  {
    hide ParseDictionary, Join, InputValue, SignatureValue, PairUp, VisibleValue, WellFormedParams, ValidKey;
    hide ParamsFromEntry;
    hide InputEntry, SignatureEntry;
    WritableIsVisible(h);
    InputReads(h);
    SignatureReads(h);
    var inputs, signatures := GetAll(m.headers, SIGNATURE_INPUT), GetAll(m.headers, SIGNATURE);
    assert InputValues([h]) == [InputValue(h)] && SignatureValues([h]) == [SignatureValue(h)];
    var di, ds := OldDictionary(inputs), OldDictionary(signatures);
    OldDictionaries(m);
    JoinedPut(inputs, InputValue(h), h.name, InputEntry(h));
    JoinedPut(signatures, SignatureValue(h), h.name, SignatureEntry(h));
    SignatureEntryIsBytes(h);
    PairPut(ds, di, MapOf(m), h, SignatureEntry(h), InputEntry(h));
    assert SignatureMap(n) == Ok(OM.Put(MapOf(m), h.name, h));
    PutNonEmpty(MapOf(m), h);
  }

  lemma {:induction false} SignatureEntryIsBytes(h: SignatureHeaders)
    ensures IsBytes(SignatureEntry(h)) && SignatureEntry(h).item.bare.bytes == h.signature
  {
  }

  lemma {:induction false} PutNonEmpty(m: HeadersMap, h: SignatureHeaders)
    ensures OM.Put(m, h.name, h) != []
  {
  }

  function OldDictionary(vals: seq<string>): Dictionary {
    if vals == [] || ParseDictionary(Join(vals, ", ")).None? then [] else ParseDictionary(Join(vals, ", ")).value
  }

  lemma {:induction false} OldDictionaries(m: Message)
    requires Ready(m)
    ensures var inputs, signatures := GetAll(m.headers, SIGNATURE_INPUT), GetAll(m.headers, SIGNATURE);
            && (inputs == [] <==> signatures == [])
            && (inputs != [] ==> ParseDictionary(Join(inputs, ", ")).Some?)
            && (inputs != [] ==> ParseDictionary(Join(signatures, ", ")).Some?)
            && (inputs != [] ==> OldDictionary(inputs) != [] && OldDictionary(signatures) != [])
            && (forall v <- inputs :: VisibleValue(v)) && (forall v <- signatures :: VisibleValue(v))
            && OM.UniqueKeys(OldDictionary(inputs)) && OM.UniqueKeys(OldDictionary(signatures))
            && Paired(OldDictionary(signatures), OldDictionary(inputs), MapOf(m))
  {
    hide ParseDictionary, Join, VisibleValue, Paired, PairUp, ValidEntry;
    var inputs, signatures := GetAll(m.headers, SIGNATURE_INPUT), GetAll(m.headers, SIGNATURE);
    if SignatureMap(m).Ok? {
      var a, b := Join(inputs, ", "), Join(signatures, ", ");
      RT.ParsedDictionary(a);
      RT.ParsedDictionary(b);
      var di, ds := ParseDictionary(a).value, ParseDictionary(b).value;
      PairingExact(ds, di, MapOf(m));
      PairedSizes(ds, di, MapOf(m));
    } else {
      NothingPaired();
    }
  }

  lemma {:induction false} PairedSizes(ds: Dictionary, di: Dictionary, r: HeadersMap)
    requires OM.UniqueKeys(ds) && OM.UniqueKeys(di) && Paired(ds, di, r)
    ensures |ds| == |di| == |r|
  {
    hide PairedAt;
    OM.KeysCount(ds);
    OM.KeysCount(di);
  }

  lemma {:induction false} NothingPaired()
    ensures Paired([], [], [])
  {
  }

  function PutHeaders(m: HeadersMap, hs: seq<SignatureHeaders>): HeadersMap
    decreases hs
  {
    if hs == [] then m else PutHeaders(OM.Put(m, hs[0].name, hs[0]), hs[1..])
  }

  /** Writing any number of signatures inserts them one after the other. */
  lemma {:induction false} GrowAll(m: Message, hs: seq<SignatureHeaders>, n: Message)
    requires Ready(m) && (forall h <- hs :: Writable(h)) && GrownBy(m.headers, n.headers, hs)
    ensures Ready(n) && MapOf(n) == PutHeaders(MapOf(m), hs)
    decreases hs
  {
    hide SignatureMap, Writable, GrownBy, Ready, MapOf, AppendPair;
    if hs == [] {
      SameFields(m, n);
    } else {
      var h := hs[0];
      assert h in hs;
      var k := m.(headers := AppendPair(m.headers, h));
      PairAppended(m.headers, h);
      GrowOne(m, h, k);
      assert hs == [h] + hs[1..];
      GrownRest(m.headers, k.headers, n.headers, h, hs[1..]);
      GrowAll(k, hs[1..], n);
    }
  }

  lemma {:induction false} GrownRest(a: Headers, b: Headers, c: Headers, x: SignatureHeaders, ys: seq<SignatureHeaders>)
    requires GrownBy(a, b, [x]) && GrownBy(a, c, [x] + ys)
    ensures GrownBy(b, c, ys)
  {
    hide InputValue, SignatureValue, GetAll;
    ValuesAppend([x], ys);
  }

  lemma {:induction false} SameFields(m: Message, n: Message)
    requires Ready(m) && GrownBy(m.headers, n.headers, [])
    ensures Ready(n) && MapOf(n) == MapOf(m)
  {
    hide TryParse, ToTexts, Join;
    assert InputValues([]) == [] && SignatureValues([]) == [];
    assert GetAll(n.headers, SIGNATURE) == GetAll(m.headers, SIGNATURE);
    assert GetAll(n.headers, SIGNATURE_INPUT) == GetAll(m.headers, SIGNATURE_INPUT);
  }

  /** Fresh, distinct names append exactly as many entries, in request order. */
  lemma {:induction false} FreshNamesAppend(m: HeadersMap, hs: seq<SignatureHeaders>)
    requires forall i | 0 <= i < |hs| :: !OM.HasKey(m, hs[i].name)
    requires forall i, j | 0 <= i < j < |hs| :: hs[i].name != hs[j].name
    ensures |PutHeaders(m, hs)| == |m| + |hs|
    ensures PutHeaders(m, hs)[..|m|] == m
    ensures forall i | 0 <= i < |hs| :: PutHeaders(m, hs)[|m| + i] == (hs[i].name, hs[i])
    decreases hs
  {
    if hs != [] {
      var n := OM.Put(m, hs[0].name, hs[0]);
      assert n == m + [(hs[0].name, hs[0])];
      FreshNamesAppend(n, hs[1..]);
      var r := PutHeaders(m, hs);
      assert r[..|m|] == r[..|n|][..|m|];
      forall i | 0 <= i < |hs| ensures r[|m| + i] == (hs[i].name, hs[i]) {
        if i == 0 {
          assert r[|m|] == r[..|n|][|m|];
        } else {
          assert r[|n| + (i - 1)] == (hs[1..][i - 1].name, hs[1..][i - 1]);
        }
      }
    }
  }

  function HeaderNames(hs: seq<SignatureHeaders>): (r: seq<string>)
    ensures |r| == |hs| && forall i | 0 <= i < |hs| :: r[i] == hs[i].name
  {
    seq(|hs|, i requires 0 <= i < |hs| => hs[i].name)
  }

  // ---- Signing calls ----

  /** The request's name is a structured-field key and its parameters print faithfully. */
  ghost predicate Proper(q: SignRequest) {
    ValidKey(NameOf(q)) && WellFormedParams(q.params)
  }

  /** Proper requests are all written once they are planned. */
  lemma {:induction false} SigningWrites(m: Message, qs: seq<SignRequest>, reqFor: Option<Request>)
    requires (forall q <- qs :: Proper(q)) && Plan(m, qs, reqFor).Ok?
    ensures var (n, r) := SetSignatures(m, qs, reqFor); var hs := Plan(m, qs, reqFor).value;
            && r.Ok? && n.head == m.head && GrownBy(m.headers, n.headers, hs)
            && forall h <- hs :: Writable(h)
  {
    hide GrownBy, AppendAll, Plan, BuildBase, BuildHeaders, WellFormedParams, ValidKey, LegalValue, InputValue;
    PlanShape(m, qs, reqFor);
    var hs := Plan(m, qs, reqFor).value;
    forall h <- hs ensures Writable(h) {
      var i :| 0 <= i < |hs| && hs[i] == h;
      assert qs[i] in qs;
      assert BuildBase(m, qs[i].params, reqFor).Ok?;
    }
    PairedGrowth(m, qs, reqFor);
    if Written(hs) < |hs| {
      WrittenStops(hs);
      WritableIsVisible(hs[Written(hs)]);
    }
    assert hs[..|hs|] == hs;
  }
}
