/** The `signature` and `signature-input` fields: printing them, and pairing them up when read. */
module SignatureHeaders {
  import opened Wrappers
  import opened Text
  import opened StructuredFields
  import opened SignatureParams
  import Base64
  import OM = OrderedMap
  import RT = StructuredFieldsRoundTrip

  datatype SignatureHeaders = SignatureHeaders(name: string, signature: seq<byte>, params: SigParams)

  type HeadersMap = seq<(string, SignatureHeaders)>

  const DEFAULT_SIGNATURE_NAME: string := "sig"

  function SignatureValue(h: SignatureHeaders): string {
    h.name + "=:" + Base64.Encode(h.signature) + ":"
  }

  function InputValue(h: SignatureHeaders): string {
    h.name + "=" + PrintParams(h.params)
  }

  // ---- Reading ----

  predicate IsBytes(e: ListEntry) {
    e.ItemEntry? && e.item.bare.ByteSequence?
  }

  /** Converts every `signature-input` entry together with the signature under its key. */
  function ConvertAll(signature: Dictionary, input: Dictionary): Result<HeadersMap>
    decreases input
  {
    if input == [] then Ok([])
    else
      var k := input[0].0;
      var params :- ParamsFromEntry(input[0].1);
      var e := OM.Get(signature, k);
      if e.None? || !IsBytes(e.value) then Err(Unreachable)
      else
        var rest :- ConvertAll(signature, input[1..]);
        Ok([(k, SignatureHeaders(k, e.value.item.bare.bytes, params))] + rest)
  }

  function PairUp(signature: Dictionary, input: Dictionary): Result<HeadersMap> {
    if |signature| != |input| then Err(BuildSignatureHeader)
    else if !(forall m <- signature :: OM.HasKey(input, m.0)) then Err(BuildSignatureHeader)
    else if !(forall m <- signature :: IsBytes(m.1)) then Err(BuildSignatureHeader)
    else if !(forall m <- input :: m.1.InnerEntry?) then Err(BuildSignatureHeader)
    else ConvertAll(signature, input)
  }

  function TryParse(signatureText: string, inputText: string): Result<HeadersMap> {
    var input :- OkOr(ParseDictionary(inputText), ParseSfv);
    var signature :- OkOr(ParseDictionary(signatureText), ParseSfv);
    PairUp(signature, input)
  }

  // ---- Pairing is exact ----

  ghost predicate PairedAt(signature: Dictionary, m: (string, ListEntry), h: (string, SignatureHeaders)) {
    && h.0 == m.0 && h.1.name == m.0
    && ParamsFromEntry(m.1) == Ok(h.1.params)
    && var e := OM.Get(signature, m.0);
       e.Some? && IsBytes(e.value) && e.value.item.bare.bytes == h.1.signature
  }

  /** The same keys on both sides; one result per `signature-input` entry, in its place, under its
      key, with the parameters and the bytes that belong to that key. */
  ghost predicate Paired(signature: Dictionary, input: Dictionary, r: HeadersMap) {
    && OM.Keys(signature) == OM.Keys(input)
    && |r| == |input|
    && forall i | 0 <= i < |input| :: PairedAt(signature, input[i], r[i])
  }

  lemma {:induction false} Converted(signature: Dictionary, input: Dictionary)
    ensures var r := ConvertAll(signature, input);
            r.Ok? ==> |r.value| == |input| && forall i | 0 <= i < |input| :: PairedAt(signature, input[i], r.value[i])
    decreases input
  {
    hide ParamsFromEntry, IsBytes;
    if input != [] && ConvertAll(signature, input).Ok? {
      Converted(signature, input[1..]);
      var r, rest := ConvertAll(signature, input).value, ConvertAll(signature, input[1..]).value;
      forall i | 0 <= i < |input| ensures PairedAt(signature, input[i], r[i]) {
        if i > 0 { assert r[i] == rest[i - 1] && input[i] == input[1..][i - 1]; }
      }
    }
  }

  lemma {:induction false} Converts(signature: Dictionary, input: Dictionary, r: HeadersMap)
    requires |r| == |input| && forall i | 0 <= i < |input| :: PairedAt(signature, input[i], r[i])
    ensures ConvertAll(signature, input) == Ok(r)
    decreases input
  {
    hide ParamsFromEntry, IsBytes;
    if input != [] {
      assert PairedAt(signature, input[0], r[0]);
      forall i | 0 <= i < |input[1..]| ensures PairedAt(signature, input[1..][i], r[1..][i]) {
        assert PairedAt(signature, input[i + 1], r[i + 1]);
      }
      Converts(signature, input[1..], r[1..]);
      assert r == [r[0]] + r[1..];
      assert r[0] == (r[0].0, SignatureHeaders(r[0].1.name, r[0].1.signature, r[0].1.params));
    }
  }

  /** Equally many keys, and every key of one side on the other: the key sets are equal. */
  lemma {:induction false} SameKeys(signature: Dictionary, input: Dictionary)
    requires OM.UniqueKeys(signature) && OM.UniqueKeys(input) && |signature| == |input|
    requires forall m <- signature :: OM.HasKey(input, m.0)
    ensures OM.Keys(signature) == OM.Keys(input)
  {
    OM.KeysCount(signature);
    OM.KeysCount(input);
    var x, y := OM.Keys(signature), OM.Keys(input);
    forall k | k in x ensures k in y {
      var i :| 0 <= i < |signature| && signature[i].0 == k;
      assert signature[i] in signature;
    }
    assert x <= y && |x| == |y|;
    assert y == x + (y - x);
    assert |y| == |x| + |y - x|;
  }

  lemma {:induction false} KeysMeans(d: Dictionary, k: string)
    ensures k in OM.Keys(d) <==> OM.HasKey(d, k)
  {
    if OM.HasKey(d, k) {
      var i :| 0 <= i < |d| && d[i].0 == k;
    }
  }

  lemma {:induction false} NoUnreachable(signature: Dictionary, input: Dictionary)
    requires forall m <- input :: ParamsFromEntry(m.1) != Err(Unreachable)
    requires forall m <- input :: OM.Get(signature, m.0).Some? && IsBytes(OM.Get(signature, m.0).value)
    ensures ConvertAll(signature, input) != Err(Unreachable)
    decreases input
  {
    hide ParamsFromEntry, IsBytes;
    if input != [] {
      assert input[0] in input;
      NoUnreachable(signature, input[1..]);
    }
  }

  lemma {:induction false} ParamsNeverUnreachable(e: ListEntry)
    ensures ParamsFromEntry(e) != Err(Unreachable)
  {
    if e.InnerEntry? {
      IdsNeverUnreachable(e.inner.items);
      var ids := IdsFrom(e.inner.items);
      if ids.Ok? {
        ApplyNeverUnreachable(OnlyCovered(ids.value), e.inner.params);
      }
    }
  }

  lemma {:induction false} IdsNeverUnreachable(items: seq<Item>)
    ensures IdsFrom(items) != Err(Unreachable)
  {
    if items != [] {
      IdNeverUnreachable(SerItem(items[0]));
      IdsNeverUnreachable(items[1..]);
    }
  }

  lemma {:induction false} IdNeverUnreachable(s: string)
    ensures ComponentId.ParseId(s) != Err(Unreachable)
  {
    hide ParseItemField;
    var item := ParseItemField(ComponentId.IdText(s));
    if item.Some? {
      IdParamsNeverUnreachable(item.value.params);
    }
  }

  lemma {:induction false} IdParamsNeverUnreachable(ps: Parameters)
    ensures ComponentId.ParamsFrom(ps) != Err(Unreachable)
  {
    if ps != [] {
      IdParamsNeverUnreachable(ps[..|ps| - 1]);
    }
  }

  lemma {:induction false} ApplyNeverUnreachable(p: SigParams, ps: Parameters)
    ensures ApplyAll(p, ps) != Err(Unreachable)
    decreases ps
  {
    if ps != [] && Apply(p, ps[0].0, ps[0].1).Ok? {
      ApplyNeverUnreachable(Apply(p, ps[0].0, ps[0].1).value, ps[1..]);
    }
  }

  /** The pairing check accepts exactly the paired dictionaries, and its last arm is never reached. */
  lemma {:induction false} PairingExact(signature: Dictionary, input: Dictionary, r: HeadersMap)
    requires OM.UniqueKeys(signature) && OM.UniqueKeys(input)
    ensures PairUp(signature, input) == Ok(r) <==> Paired(signature, input, r)
    ensures PairUp(signature, input) != Err(Unreachable)
  {
    hide PairedAt, ParamsFromEntry, IsBytes, ConvertAll, OM.Keys;
    if PairUp(signature, input) == Ok(r) {
      SameKeys(signature, input);
      Converted(signature, input);
    }
    if Paired(signature, input, r) {
      PairedPasses(signature, input, r);
      Converts(signature, input, r);
    }
    if |signature| == |input| && (forall m <- signature :: OM.HasKey(input, m.0)) &&
      (forall m <- signature :: IsBytes(m.1)) {
      SameKeys(signature, input);
      forall m <- input ensures OM.Get(signature, m.0).Some? && IsBytes(OM.Get(signature, m.0).value) {
        KeysMeans(input, m.0);
        KeysMeans(signature, m.0);
        var i :| 0 <= i < |input| && input[i] == m;
        assert input[i].0 == m.0;
        var j :| 0 <= j < |signature| && signature[j] == (m.0, OM.Get(signature, m.0).value);
        assert signature[j] in signature;
      }
      forall m <- input ensures ParamsFromEntry(m.1) != Err(Unreachable) { ParamsNeverUnreachable(m.1); }
      NoUnreachable(signature, input);
    }
  }

  lemma {:induction false} PairedPasses(signature: Dictionary, input: Dictionary, r: HeadersMap)
    requires OM.UniqueKeys(signature) && OM.UniqueKeys(input) && Paired(signature, input, r)
    ensures |signature| == |input|
    ensures forall m <- signature :: OM.HasKey(input, m.0) && IsBytes(m.1)
    ensures forall m <- input :: m.1.InnerEntry?
  {
    hide ParamsFromEntry, IsBytes;
    OM.KeysCount(signature);
    OM.KeysCount(input);
    forall m <- signature ensures OM.HasKey(input, m.0) && IsBytes(m.1) {
      var j :| 0 <= j < |signature| && signature[j] == m;
      assert signature[j].0 in OM.Keys(signature);
      KeysMeans(input, m.0);
      var i :| 0 <= i < |input| && input[i].0 == m.0;
      assert PairedAt(signature, input[i], r[i]);
      OM.GetAt(signature, j);
    }
    forall m <- input ensures m.1.InnerEntry? {
      var i :| 0 <= i < |input| && input[i] == m;
      assert PairedAt(signature, input[i], r[i]);
      InnerIfConverted(m.1);
    }
  }

  lemma {:induction false} InnerIfConverted(e: ListEntry)
    requires ParamsFromEntry(e).Ok?
    ensures e.InnerEntry?
  {
  }

  // ---- One more signature ----

  lemma {:induction false} PairPut(signature: Dictionary, input: Dictionary, r: HeadersMap, h: SignatureHeaders,
                                   b: ListEntry, e: ListEntry)
    requires OM.UniqueKeys(signature) && OM.UniqueKeys(input) && Paired(signature, input, r)
    requires IsBytes(b) && b.item.bare.bytes == h.signature && ParamsFromEntry(e) == Ok(h.params)
    ensures PairUp(OM.Put(signature, h.name, b), OM.Put(input, h.name, e)) == Ok(OM.Put(r, h.name, h))
  {
    hide ParamsFromEntry, IsBytes, OM.Keys, PairUp;
    var k := h.name;
    var s2, i2, r2 := OM.Put(signature, k, b), OM.Put(input, k, e), OM.Put(r, k, h);
    OM.PutUnique(signature, k, b);
    OM.PutUnique(input, k, e);
    OM.PutKeys(signature, k, b);
    OM.PutKeys(input, k, e);
    forall i | 0 <= i < |input| ensures r[i].0 == input[i].0 { assert PairedAt(signature, input[i], r[i]); }
    if OM.HasKey(input, k) {
      var n := OM.IndexOf(input, k);
      OM.PutAt(input, k, e, n);
      assert r[n].0 == k;
      OM.PutAt(r, k, h, n);
    } else {
      assert !OM.HasKey(r, k);
    }
    forall i | 0 <= i < |i2| ensures PairedAt(s2, i2[i], r2[i]) {
      OM.GetPut(signature, k, b, i2[i].0);
      if i2[i].0 != k {
        assert i < |input| && i2[i] == input[i] && r2[i] == r[i];
        assert PairedAt(signature, input[i], r[i]);
      } else if OM.HasKey(input, k) {
        var n := OM.IndexOf(input, k);
        assert forall j | 0 <= j < |input| && j != n :: input[j].0 != k;
        assert i == n;
      }
    }
    PairingExact(s2, i2, r2);
  }

  // ---- What one signature's field values read as ----

  function InputEntry(h: SignatureHeaders): ListEntry {
    InnerEntry(InnerOf(h.params))
  }

  function SignatureEntry(h: SignatureHeaders): ListEntry {
    ItemEntry(Item(ByteSequence(h.signature), []))
  }

  lemma {:induction false} InputReads(h: SignatureHeaders)
    requires WellFormedParams(h.params) && ValidKey(h.name)
    ensures ParseDictionary(InputValue(h)) == Some([(h.name, InputEntry(h))])
    ensures ParamsFromEntry(InputEntry(h)) == Ok(h.params)
  {
    hide ParseDictionary, PrintParams, SerInner, ValidInner, ParamsFromEntry, WellFormedParams, EscapableParams;
    hide InnerOf;
    var d := [(h.name, InputEntry(h))];
    WellFormedIsEscapable(h.params);
    InnerValid(h.params);
    WellFormedPrintsInner(h.params);
    assert SerDictionary(d) == Some(InputValue(h));
    RT.DictionaryRoundTrip(d);
    EntryRoundTrip(h.params);
  }

  lemma {:induction false} WellFormedPrintsInner(p: SigParams)
    requires WellFormedParams(p)
    ensures PrintParams(p) == SerInner(InnerOf(p))
  {
    hide PrintParams, SerInner;
    ParamsPrintInner(p);
  }

  lemma {:induction false} SignatureReads(h: SignatureHeaders)
    requires ValidKey(h.name)
    ensures ParseDictionary(SignatureValue(h)) == Some([(h.name, SignatureEntry(h))])
  {
    hide ParseDictionary, Base64.Encode;
    var d := [(h.name, SignatureEntry(h))];
    var b := Base64.Encode(h.signature);
    assert SerEntry(SignatureEntry(h)) == ":" + b + ":" + "";
    assert h.name + "=" + (":" + b + ":" + "") == h.name + "=:" + b + ":";
    assert SerDictionary(d) == Some(SignatureValue(h));
    RT.DictionaryRoundTrip(d);
  }
}
