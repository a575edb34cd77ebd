/** The text that is signed, written out. */
module SignedText {
  import opened Wrappers
  import opened Text
  import opened ComponentId
  import opened Component
  import opened SignatureParams
  import opened SignatureBase
  import Uniqueness
  import Utf8

  /** The signed bytes are the UTF-8 text of these lines with a newline between any two. */
  lemma {:induction false} SignedBytes(b: SignatureBase, texts: seq<string>)
    requires LinesOf(b, texts)
    ensures Utf8.Decode(AsBytes(b)) == Some(Join(texts, "\n"))
    ensures AsBytes(b) == Utf8.Encode(Join(texts, "\n"))
  {
    hide PrintId, PrintParams, Utf8.Encode, Utf8.Decode, Join;
    LinesJoin(b, texts);
    Utf8.DecodeEncode(Join(texts, "\n"));
  }

  const PARAMS_ID: ComponentId := ComponentId(Derived(DerivedName.SignatureParams), [])

  lemma {:induction false} ParamsIdReads()
    ensures ParseId("\"@signature-params\"") == Ok(PARAMS_ID)
    ensures Trim("\"@signature-params\"") == "\"@signature-params\""
  {
    hide ParseId, Trim;
    assert PrintId(PARAMS_ID) == "\"@signature-params\"";
    ParamsIdIsWellFormed();
    IdRoundTrip(PARAMS_ID);
    IdTrimmed(PARAMS_ID);
    TrimTrimmed(PrintId(PARAMS_ID));
  }

  lemma {:induction false} ParamsIdIsWellFormed()
    ensures WellFormedId(PARAMS_ID)
  {
    assert PlainText("@signature-params");
    hide PlainText;
  }

  /** The last line reads as a component with the identifier of the parameters, whatever they are. */
  lemma {:induction false} LastLineReads(p: SigParams)
    ensures var c := ParseComponent("\"@signature-params\": " + PrintParams(p));
            c.Ok? && c.value.id == ComponentId(Derived(DerivedName.SignatureParams), [])
  {
    hide PrintParams, ParseId, Trim, SplitOnce;
    var s, t := "\"@signature-params\"", " " + PrintParams(p);
    var line := "\"@signature-params\": " + PrintParams(p);
    ParamsIdReads();
    assert line == s + [':'] + t;
    assert ':' !in s;
    SplitOnceAt(s, ':', t);
    assert SplitOnce(line, ':') == Some((s, t));
    assert StartsWith(s, '"') && EndsWith(s, '"');
  }

  /** The same identifier, its parameters in any order. */
  ghost predicate SameUpToOrder(a: ComponentId, b: ComponentId) {
    a.name == b.name && forall p :: p in a.params <==> p in b.params
  }

  /** A base is accepted exactly when its lines are those of the covered identifiers, one by one, with
      the parameters of each in any order. */
  lemma {:induction false} BaseExactly(lines: seq<Component>, params: SigParams)
    requires forall c <- lines :: Uniqueness.Distinct(c.id.params)
    requires forall id <- params.covered :: Uniqueness.Distinct(id.params)
    ensures var ok := |lines| == |params.covered|
                      && forall i | 0 <= i < |lines| :: SameUpToOrder(lines[i].id, params.covered[i]);
            TryNew(lines, params) == if ok then Ok(SignatureBase(lines, params)) else Err(BuildSignatureBase)
  {
    hide Uniqueness.Distinct;
    if |lines| == |params.covered| {
      forall i | 0 <= i < |lines|
        ensures SameId(lines[i].id, params.covered[i]) <==> SameUpToOrder(lines[i].id, params.covered[i])
      {
        assert lines[i] in lines && params.covered[i] in params.covered;
        var a, b := lines[i].id.params, params.covered[i].params;
        if SameParams(a, b) { Uniqueness.SameBack(a, b); }
        if forall p :: p in a <==> p in b { Uniqueness.SameSizes(a, b); }
      }
    }
  }
}
