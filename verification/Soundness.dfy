/** What a successful verification says about the message.  The converse of signing-then-verifying:
    if a key accepts nothing but what was signed, then a message that verifies shows the values that
    were signed. */
module Soundness {
  import opened Wrappers
  import opened Text
  import opened StructuredFields
  import opened ComponentId
  import opened SignatureParams
  import opened SignatureBase
  import opened SignatureHeaders
  import opened Message
  import opened Signing
  import opened SignatureFields
  import opened Verifying
  import opened Binding
  import Escaping
  import RT = StructuredFieldsRoundTrip

  /** A message, the parameters it was signed with and the request that it answers. */
  datatype Signed = Signed(message: Message, params: SigParams, reqFor: Option<Request>)

  ghost predicate HasBytes(e: Signed, data: seq<byte>) {
    BuildBase(e.message, e.params, e.reqFor).Ok? && AsBytes(BuildBase(e.message, e.params, e.reqFor).value) == data
  }

  /** The key accepts signatures only over bytes that were signed. */
  ghost predicate AcceptsOnly(vk: VerifyingKey, log: seq<Signed>) {
    forall data: seq<byte>, signature: seq<byte> ::
      vk.verify(data, signature) ==> exists e <- log :: HasBytes(e, data)
  }

  lemma {:induction false} Rebuilt(m: Message, entries: HeadersMap, reqFor: Option<Request>, i: nat)
    requires i < |Rebuild(m, entries, reqFor)|
    ensures var x := Rebuild(m, entries, reqFor)[i];
            (x.0, x.1.1) in entries && BuildBase(m, x.1.1.params, reqFor) == Ok(x.1.0)
    decreases entries
  {
    hide BuildBase;
    var rest := Rebuild(m, entries[1..], reqFor);
    if BuildBase(m, entries[0].1.params, reqFor).Err? {
      Rebuilt(m, entries[1..], reqFor, i);
    } else if i > 0 {
      Rebuilt(m, entries[1..], reqFor, i - 1);
      assert Rebuild(m, entries, reqFor)[i] == rest[i - 1];
    }
  }

  /** What a message carries was read from a valid entry. */
  lemma {:induction false} CarriedIsParsed(m: Message, x: (string, SignatureHeaders))
    requires SignatureMap(m).Ok? && x in SignatureMap(m).value
    ensures PrintableParams(x.1.params)
    ensures WellFormedParams(x.1.params) <==> PlainParams(x.1.params)
  {
    hide ParseDictionary, Join, VisibleValue, PairUp, ParamsFromEntry, PrintableParams, WellFormedParams;
    hide PlainParams, ValidEntry;
    var a, b := Join(GetAll(m.headers, SIGNATURE), ", "), Join(GetAll(m.headers, SIGNATURE_INPUT), ", ");
    RT.ParsedDictionary(a);
    RT.ParsedDictionary(b);
    var ds, di := ParseDictionary(a).value, ParseDictionary(b).value;
    var r := SignatureMap(m).value;
    PairingExact(ds, di, r);
    var i :| 0 <= i < |r| && r[i] == x;
    assert PairedAt(ds, di[i], r[i]);
    assert di[i] in di;
    EntryIsParsed(di[i].1);
  }

  lemma {:induction false} EntryIsParsed(e: ListEntry)
    requires ValidEntry(e) && ParamsFromEntry(e).Ok?
    ensures var p := ParamsFromEntry(e).value; PrintableParams(p) && (WellFormedParams(p) <==> PlainParams(p))
  {
    hide ParamsFromEntry, PrintableParams, PlainParams, ValidEntry;
    Escaping.EntrySpends(e);
    if PlainParams(ParamsFromEntry(e).value) { EntryParsed(e); }
  }

  /** The received message shows what was signed: the signature is not expired, belongs to the key id
      asked for, and its parameters and covered values print as those that were signed.  If the
      signed parameters were well formed, then the received ones are the same exactly when none of
      their strings needs escaping. */
  ghost predicate Attests(e: Signed, n: Message, h: SignatureHeaders, reqFor: Option<Request>, keyId: Option<string>,
                          now: nat) {
    && Bound(e.message, e.params, e.reqFor, n, h.params, reqFor)
    && (WellFormedParams(e.params) ==> (h.params == e.params <==> PlainParams(h.params)))
    && (h.params.expires.Some? ==> now <= h.params.expires.value) && (keyId.Some? ==> h.params.keyid == keyId)
  }

  /** Soundness.  If the key accepts only what was signed and a message verifies, then the named
      signature of the message attests to something that was signed. */
  lemma {:induction false} VerifiedWasSigned(n: Message, reqFor: Option<Request>, vk: VerifyingKey,
                                             keyId: Option<string>, now: nat, log: seq<Signed>)
    requires AcceptsOnly(vk, log)
    requires forall e <- log :: OneLineMessage(e.message, e.reqFor) && OneLine(PrintParams(e.params))
    requires OneLineMessage(n, reqFor) && VerifySignature(n, vk, keyId, reqFor, now).Ok?
    ensures SignatureMap(n).Ok?
    ensures exists e <- log, x <- SignatureMap(n).value ::
      x.0 == VerifySignature(n, vk, keyId, reqFor, now).value && Attests(e, n, x.1, reqFor, keyId, now)
  {
    hide Rebuild, TryParse, VerifyOne, VerifyHeaders, BuildBase, OneLineMessage, WellFormedParams, Attests, HasBytes;
    hide AsBytes;
    var bm := ExtractSignatures(n, reqFor).value;
    VerifiesFirstMatch(bm, vk, keyId, now);
    OneKey(n, vk, keyId, reqFor, now);
    var i: nat :| FirstPassing(bm, vk, keyId, now, i) && bm[i].0 == VerifySignature(n, vk, keyId, reqFor, now).value;
    Rebuilt(n, SignatureMap(n).value, reqFor, i);
    var x := (bm[i].0, bm[i].1.1);
    var data := AsBytes(bm[i].1.0);
    Passed(bm[i], vk, keyId, now);
    BuiltBaseIsExact(n, x.1.params, reqFor);
    var e :| e in log && HasBytes(e, data);
    CarriedIsParsed(n, x);
    OneAttests(e, n, x.1, reqFor, keyId, now);
  }

  lemma {:induction false} Passed(x: (string, (SignatureBase, SignatureHeaders)), vk: VerifyingKey,
                                  keyId: Option<string>, now: nat)
    requires Passes(x, vk, keyId, now)
    ensures vk.verify(AsBytes(x.1.0), x.1.1.signature)
    ensures x.1.1.params.expires.Some? ==> now <= x.1.1.params.expires.value
    ensures keyId.Some? ==> x.1.0.params.keyid == keyId
  {
    hide AsBytes;
  }

  lemma {:induction false} OneAttests(e: Signed, n: Message, h: SignatureHeaders, reqFor: Option<Request>,
                                      keyId: Option<string>, now: nat)
    requires OneLineMessage(e.message, e.reqFor) && OneLine(PrintParams(e.params)) && OneLineMessage(n, reqFor)
    requires BuildBase(n, h.params, reqFor).Ok? && HasBytes(e, AsBytes(BuildBase(n, h.params, reqFor).value))
    requires PrintableParams(h.params) && (WellFormedParams(h.params) <==> PlainParams(h.params))
    requires (h.params.expires.Some? ==> now <= h.params.expires.value) && (keyId.Some? ==> h.params.keyid == keyId)
    ensures Attests(e, n, h, reqFor, keyId, now)
  {
    hide BuildBase, AsBytes, OneLineMessage, Bound, PlainParams, PrintableParams, PrintParams;
    ParamsNoBreak(h.params);
    if WellFormedParams(e.params) { WellFormedIsPlain(e.params); }
    hide WellFormedParams;
    BytesBindMessage(e.message, e.params, e.reqFor, n, h.params, reqFor);
  }

  lemma {:induction false} WellFormedIsPlain(p: SigParams)
    requires WellFormedParams(p)
    ensures PlainParams(p)
  {
    hide PlainParams;
  }

  /** Received parameters need not be the signed ones.  A received key id that holds a quotation mark,
      escaped on its way, has the same base bytes, over every message, as another key id and a tag. */
  lemma {:induction false} ReceivedUnescaped(p: SigParams, u: string, v: string, m: Message, reqFor: Option<Request>)
    requires WellFormedParams(p) && p.tag.None? && PlainText(u) && PlainText(v)
    ensures var q, signed := p.(keyid := Some(u + "\";tag=\"" + v)), p.(keyid := Some(u), tag := Some(v));
            && WellFormedParams(signed) && ParseParamsText(SerInner(InnerOf(q))) == Ok(q) && q != signed
            && (BuildBase(m, q, reqFor).Ok? <==> BuildBase(m, signed, reqFor).Ok?)
            && (BuildBase(m, q, reqFor).Ok? ==>
                AsBytes(BuildBase(m, q, reqFor).value) == AsBytes(BuildBase(m, signed, reqFor).value))
  {
    hide PrintParams, ParseParamsText, Components, PlainId, ProperId, SameId, WellFormedId, PrintLines;
    var q, signed := p.(keyid := Some(u + "\";tag=\"" + v)), p.(keyid := Some(u), tag := Some(v));
    UnescapedKeyid(p, u, v);
    WellFormedIsEscapable(p);
    EscapedReadsBack(q);
  }
}
