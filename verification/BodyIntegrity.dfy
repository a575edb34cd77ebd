/** Signatures and body digests together: whose body a verified message has. */
module BodyIntegrity {
  import opened Wrappers
  import opened Text
  import opened ComponentId
  import opened Component
  import opened SignatureParams
  import opened Message
  import opened SignatureFields
  import opened Verifying
  import opened Binding
  import opened Soundness
  import opened ContentDigest
  import StructuredFields
  import SignatureBase
  import Base64

  const DIGEST_ID: ComponentId := ComponentId(HttpField(CONTENT_DIGEST), [])

  /** The signed message had this digest of this body, and no other. */
  predicate SignedBody(e: Signed, t: DigestType, body: seq<byte>, hash: Hasher) {
    GetAll(e.message.headers, CONTENT_DIGEST) == [DigestValue(t, hash(t, body))]
  }

  lemma {:induction false} DigestIdIsWellFormed()
    ensures WellFormedId(DIGEST_ID)
  {
  }

  /** A printed `content-digest` identifier is that identifier. */
  lemma {:induction false} DigestIdOnly(id: ComponentId)
    requires WellFormedId(id) && PrintId(id) == PrintId(DIGEST_ID)
    ensures id == DIGEST_ID
  {
    hide WellFormedId, PrintId, ParseId;
    DigestIdIsWellFormed();
    IdRoundTrip(id);
    IdRoundTrip(DIGEST_ID);
  }

  /** The component's value is the join of the field's values. */
  lemma {:induction false} DigestComponent(m: Message, reqFor: Option<Request>)
    requires ComponentFor(m, DIGEST_ID, reqFor).Ok?
    ensures Render(ComponentFor(m, DIGEST_ID, reqFor).value.value) == Join(GetAll(m.headers, CONTENT_DIGEST), ", ")
  {
    hide Join, VisibleValue;
    assert ToLower(CONTENT_DIGEST) == CONTENT_DIGEST;
  }

  lemma {:induction false} OnlyValue(vs: seq<string>, s: string)
    requires Join(vs, ", ") == s && s != "" && ',' !in s
    ensures vs == [s]
  {
    CommaInJoin(vs);
  }

  lemma {:induction false} CommaInJoin(vs: seq<string>)
    ensures |vs| > 1 ==> ',' in Join(vs, ", ")
  {
    if |vs| > 1 { assert Join(vs, ", ")[|vs[0]|] == ','; }
  }

  lemma {:induction false} DigestIsOneValue(t: DigestType, d: seq<byte>)
    ensures DigestValue(t, d) != "" && ',' !in DigestValue(t, d) && Join([DigestValue(t, d)], ", ") == DigestValue(t, d)
  {
    hide Base64.Encode;
    Base64.EncodeAlphabet(d);
  }

  /** A message that shows the signed digest field has the signed digest. */
  lemma {:induction false} ShownDigest(e: Signed, n: Message, p: SigParams, reqFor: Option<Request>,
                                       t: DigestType, body: seq<byte>, hash: Hasher)
    requires WellFormedParams(e.params) && Bound(e.message, e.params, e.reqFor, n, p, reqFor)
    requires DIGEST_ID in p.covered && SignedBody(e, t, body, hash)
    ensures ExtractContentDigest(n.headers) == Ok((t, hash(t, body)))
  {
    hide PrintId, PrintParams, WellFormedId, ComponentFor, Join, DigestValue, StructuredFields.ParseDictionary;
    hide PlainId, ProperId, SameId, VisibleValue;
    var i :| 0 <= i < |p.covered| && p.covered[i] == DIGEST_ID;
    var id := e.params.covered[i];
    assert WellFormedId(id) by { CoveredIsWellFormed(e.params, i); }
    DigestIdOnly(id);
    DigestComponent(e.message, e.reqFor);
    DigestComponent(n, reqFor);
    var d := hash(t, body);
    DigestIsOneValue(t, d);
    OnlyValue(GetAll(n.headers, CONTENT_DIGEST), DigestValue(t, d));
    DigestReads(t, d);
    ReadsAs(n, t, d);
  }

  lemma {:induction false} CoveredIsWellFormed(p: SigParams, i: nat)
    requires WellFormedParams(p) && i < |p.covered|
    ensures WellFormedId(p.covered[i])
  {
    hide PlainId, ProperId, SameId;
    assert p.covered[i] in p.covered;
  }

  lemma {:induction false} ReadsAs(n: Message, t: DigestType, d: seq<byte>)
    requires GetAll(n.headers, CONTENT_DIGEST) == [DigestValue(t, d)]
    ensures ExtractContentDigest(n.headers) == Ok((t, d))
  {
    hide StructuredFields.ParseDictionary, DigestValue, VisibleValue;
    DigestReads(t, d);
  }

  /** Body integrity.  If the key accepts only what was signed, everything that was signed carried a
      digest of its body, and a message verifies by a signature that covers `content-digest`, then a
      body is accepted for that message exactly when it has the digest of a body that was signed. */
  lemma {:induction false} VerifiedBody(n: Message, reqFor: Option<Request>, vk: VerifyingKey, keyId: Option<string>,
                                        now: nat, log: seq<Signed>, hash: Hasher)
    requires AcceptsOnly(vk, log)
    requires forall e <- log :: OneLineMessage(e.message, e.reqFor) && WellFormedParams(e.params)
    requires forall e <- log :: exists t, body :: SignedBody(e, t, body, hash)
    requires OneLineMessage(n, reqFor) && VerifySignature(n, vk, keyId, reqFor, now).Ok?
    requires SignatureMap(n).Ok? && forall x <- SignatureMap(n).value ::
      x.0 == VerifySignature(n, vk, keyId, reqFor, now).value ==> DIGEST_ID in x.1.params.covered
    ensures exists e <- log, x <- SignatureMap(n).value, t, body ::
      && SignedBody(e, t, body, hash)
      && x.0 == VerifySignature(n, vk, keyId, reqFor, now).value && Attests(e, n, x.1, reqFor, keyId, now)
      && forall other :: VerifyContentDigest(n, other, hash).Ok? <==> hash(t, other) == hash(t, body)
  {
    hide VerifySignature, SignatureMap, OneLineMessage, WellFormedParams, Bound, HasBytes, SignedBody;
    hide VerifyContentDigest, ExtractContentDigest, PrintParams;
    forall e <- log ensures OneLine(PrintParams(e.params)) { SignedIsOneLine(e.params); }
    VerifiedWasSigned(n, reqFor, vk, keyId, now, log);
    var e, x :| e in log && x in SignatureMap(n).value && x.0 == VerifySignature(n, vk, keyId, reqFor, now).value
      && Attests(e, n, x.1, reqFor, keyId, now);
    var t, body :| SignedBody(e, t, body, hash);
    ShownDigest(e, n, x.1.params, reqFor, t, body, hash);
    forall other ensures VerifyContentDigest(n, other, hash).Ok? <==> hash(t, other) == hash(t, body) {
      VerifiesExactly(n, other, hash);
    }
  }

  lemma {:induction false} SignedIsOneLine(p: SigParams)
    requires WellFormedParams(p)
    ensures OneLine(PrintParams(p))
  {
    hide PrintParams, PlainParams, PrintableParams;
    WellFormedIsPlain(p);
    PlainIsPrintable(p);
    SignatureBase.ParamsNoBreak(p);
  }
}
