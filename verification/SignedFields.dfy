/** What a signing call writes, and how it fails. */
module SignedFields {
  import opened Wrappers
  import opened Text
  import opened SignatureParams
  import opened SignatureBase
  import opened SignatureHeaders
  import opened Message
  import opened Signing
  import Base64

  function Field(m: Message, name: string): seq<string> {
    if name in m.headers then m.headers[name] else []
  }

  /** The name of a request's signature. */
  function Label(q: SignRequest): string {
    if q.name.Some? then q.name.value else "sig"
  }

  /** The signature of a request: its key signs the bytes of its base. */
  ghost predicate Signs(m: Message, q: SignRequest, reqFor: Option<Request>, signature: seq<byte>) {
    var b := BuildBase(m, q.params, reqFor);
    b.Ok? && q.key.sign(AsBytes(b.value)) == Some(signature)
  }

  ghost predicate BaseExists(m: Message, q: SignRequest, reqFor: Option<Request>) {
    BuildBase(m, q.params, reqFor).Ok?
  }

  /** A value for every request, behind the values that were there. */
  ghost predicate InputsWritten(before: seq<string>, after: seq<string>, qs: seq<SignRequest>) {
    && |after| == |before| + |qs| && after[..|before|] == before
    && forall i | 0 <= i < |qs| :: after[|before| + i] == Label(qs[i]) + "=" + PrintParams(qs[i].params)
  }

  ghost predicate IsSignatureOf(m: Message, q: SignRequest, reqFor: Option<Request>, v: string) {
    exists s :: Signs(m, q, reqFor, s) && v == Label(q) + "=:" + Base64.Encode(s) + ":"
  }

  ghost predicate SignaturesWritten(m: Message, before: seq<string>, after: seq<string>, qs: seq<SignRequest>,
                                    reqFor: Option<Request>) {
    && |after| == |before| + |qs| && after[..|before|] == before
    && forall i | 0 <= i < |qs| :: IsSignatureOf(m, qs[i], reqFor, after[|before| + i])
  }

  /** One value of each field for every request, and nothing else. */
  ghost predicate Wrote(m: Message, n: Message, qs: seq<SignRequest>, reqFor: Option<Request>) {
    && InputsWritten(Field(m, "signature-input"), Field(n, "signature-input"), qs)
    && SignaturesWritten(m, Field(m, "signature"), Field(n, "signature"), qs, reqFor)
    && n.head == m.head
    && forall f: string | f != "signature" && f != "signature-input" :: Field(n, f) == Field(m, f)
  }

  lemma {:induction false} OneHeader(m: Message, q: SignRequest, reqFor: Option<Request>, h: SignatureHeaders)
    requires BaseExists(m, q, reqFor)
    requires BuildHeaders(BuildBase(m, q.params, reqFor).value, q) == Ok(h)
    ensures Signs(m, q, reqFor, h.signature)
    ensures SignatureValue(h) == Label(q) + "=:" + Base64.Encode(h.signature) + ":"
  {
    hide BuildBase, AsBytes, Base64.Encode;
  }

  lemma {:induction false} OneInput(m: Message, q: SignRequest, reqFor: Option<Request>, h: SignatureHeaders)
    requires h.name == NameOf(q) && h.params == q.params
    ensures InputValue(h) == Label(q) + "=" + PrintParams(q.params)
  {
    hide PrintParams;
  }

  lemma {:induction false} GrownWrote(m: Message, n: Message, qs: seq<SignRequest>, reqFor: Option<Request>,
                                      hs: seq<SignatureHeaders>)
    requires Plan(m, qs, reqFor) == Ok(hs) && n.head == m.head && GrownBy(m.headers, n.headers, hs)
    ensures Wrote(m, n, qs, reqFor)
  {
    hide Plan, BuildBase, BuildHeaders, InputValue, SignatureValue, NameOf, InputsWritten, SignaturesWritten;
    AllInputs(m, qs, reqFor, hs, Field(m, "signature-input"));
    AllSignatures(m, qs, reqFor, hs, Field(m, "signature"));
    assert Field(n, "signature-input") == Field(m, "signature-input") + InputValues(hs);
    assert Field(n, "signature") == Field(m, "signature") + SignatureValues(hs);
    forall f: string | f != "signature" && f != "signature-input" ensures Field(n, f) == Field(m, f) {
      assert GetAll(n.headers, f) == GetAll(m.headers, f);
    }
  }

  lemma {:induction false} AllInputs(m: Message, qs: seq<SignRequest>, reqFor: Option<Request>,
                                     hs: seq<SignatureHeaders>, before: seq<string>)
    requires Plan(m, qs, reqFor) == Ok(hs)
    ensures InputsWritten(before, before + InputValues(hs), qs)
  {
    hide Plan, BuildBase, BuildHeaders, InputValue, NameOf, PrintParams, Label;
    PlanShape(m, qs, reqFor);
    forall i | 0 <= i < |qs| ensures InputValues(hs)[i] == Label(qs[i]) + "=" + PrintParams(qs[i].params) {
      assert BuildBase(m, qs[i].params, reqFor).Ok?;
      OneInput(m, qs[i], reqFor, hs[i]);
    }
  }

  lemma {:induction false} AllSignatures(m: Message, qs: seq<SignRequest>, reqFor: Option<Request>,
                                         hs: seq<SignatureHeaders>, before: seq<string>)
    requires Plan(m, qs, reqFor) == Ok(hs)
    ensures SignaturesWritten(m, before, before + SignatureValues(hs), qs, reqFor)
  {
    hide Plan, BuildBase, BuildHeaders, SignatureValue, NameOf, Signs, Label, Base64.Encode;
    PlanShape(m, qs, reqFor);
    forall i | 0 <= i < |qs| ensures IsSignatureOf(m, qs[i], reqFor, SignatureValues(hs)[i]) {
      assert BuildBase(m, qs[i].params, reqFor).Ok?;
      OneHeader(m, qs[i], reqFor, hs[i]);
    }
  }

  /** A successful call has written, for every request in order, `name=params` and `name=:signature:`,
      the signature being its key's over the bytes of its base, and nothing else. */
  lemma {:induction false} SigningWrote(m: Message, qs: seq<SignRequest>, reqFor: Option<Request>)
    requires SetSignatures(m, qs, reqFor).1.Ok?
    ensures Wrote(m, SetSignatures(m, qs, reqFor).0, qs, reqFor)
  {
    hide Wrote, AppendAll, Plan, GrownBy;
    PairedGrowth(m, qs, reqFor);
    var hs := Plan(m, qs, reqFor).value;
    assert hs[..|hs|] == hs;
    GrownWrote(m, SetSignatures(m, qs, reqFor).0, qs, reqFor, hs);
  }

  // ---- Failures ----

  /** A header value may hold no control characters but the tabulator. */
  predicate Transmittable(s: string) {
    forall c <- s :: (c >= ' ' && c as int != 127) || c as int == 9
  }

  lemma {:induction false} FirstBaseFails(m: Message, qs: seq<SignRequest>, reqFor: Option<Request>, i: nat)
    requires i < |qs| && BuildBase(m, qs[i].params, reqFor).Err?
    requires forall j | 0 <= j < i :: BaseExists(m, qs[j], reqFor)
    ensures BuildBases(m, qs, reqFor) == Err(BuildBase(m, qs[i].params, reqFor).error)
  {
    hide BuildBase;
    if i > 0 {
      assert BaseExists(m, qs[0], reqFor);
      forall j | 0 <= j < i - 1 ensures BaseExists(m, qs[1..][j], reqFor) { assert BaseExists(m, qs[j + 1], reqFor); }
      FirstBaseFails(m, qs[1..], reqFor, i - 1);
    }
  }

  lemma {:induction false} BasesThere(m: Message, qs: seq<SignRequest>, reqFor: Option<Request>)
    requires forall q <- qs :: BaseExists(m, q, reqFor)
    ensures BuildBases(m, qs, reqFor).Ok?
  {
    hide BuildBase;
    if qs != [] {
      assert qs[0] in qs;
      BasesThere(m, qs[1..], reqFor);
    }
  }

  lemma {:induction false} KeyFails(bases: seq<SignatureBase>, qs: seq<SignRequest>)
    requires |bases| == |qs| && SignBases(bases, qs).Err?
    ensures SignBases(bases, qs) == Err(SigningFailed)
    ensures exists i | 0 <= i < |qs| :: qs[i].key.sign(AsBytes(bases[i])).None?
  {
    hide AsBytes;
    if BuildHeaders(bases[0], qs[0]).Ok? {
      KeyFails(bases[1..], qs[1..]);
      var i :| 0 <= i < |qs| - 1 && qs[1..][i].key.sign(AsBytes(bases[1..][i])).None?;
      assert qs[i + 1].key.sign(AsBytes(bases[i + 1])).None?;
    } else {
      assert qs[0].key.sign(AsBytes(bases[0])).None?;
    }
  }

  /** If a base cannot be built, the call fails with the first error, in request order, and writes
      nothing.  If all can and a key cannot sign, it fails with that error and writes nothing.  After that
      it succeeds exactly when every name and all printed parameters can be transmitted. */
  lemma {:induction false} SigningFails(m: Message, qs: seq<SignRequest>, reqFor: Option<Request>)
    ensures forall i | 0 <= i < |qs| ::
      BuildBase(m, qs[i].params, reqFor).Err? && (forall j | 0 <= j < i :: BaseExists(m, qs[j], reqFor)) ==>
        SetSignatures(m, qs, reqFor) == (m, Err(BuildBase(m, qs[i].params, reqFor).error))
    ensures (forall q <- qs :: BaseExists(m, q, reqFor)) && (exists q <- qs :: forall s :: !Signs(m, q, reqFor, s)) ==>
      SetSignatures(m, qs, reqFor) == (m, Err(SigningFailed))
    ensures (forall q <- qs :: exists s :: Signs(m, q, reqFor, s)) ==>
      var r := SetSignatures(m, qs, reqFor).1;
      && (r.Ok? <==> forall q <- qs :: Transmittable(Label(q)) && Transmittable(PrintParams(q.params)))
      && (r.Err? ==> r == Err(InvalidHeaderValue))
  {
    hide AppendAll, BuildBase, AsBytes, PrintParams, Transmittable, Label, SignBases, BuildBases;
    forall i | 0 <= i < |qs| && BuildBase(m, qs[i].params, reqFor).Err?
               && forall j | 0 <= j < i :: BaseExists(m, qs[j], reqFor)
      ensures SetSignatures(m, qs, reqFor) == (m, Err(BuildBase(m, qs[i].params, reqFor).error))
    {
      FirstBaseFails(m, qs, reqFor, i);
    }
    if forall q <- qs :: BaseExists(m, q, reqFor) {
      BasesThere(m, qs, reqFor);
      BasesShape(m, qs, reqFor);
      var bases := BuildBases(m, qs, reqFor).value;
      if exists q <- qs :: forall s :: !Signs(m, q, reqFor, s) {
        var i :| 0 <= i < |qs| && forall s :: !Signs(m, qs[i], reqFor, s);
        assert BuildBase(m, qs[i].params, reqFor) == Ok(bases[i]);
        if SignBases(bases, qs).Ok? { AllSign(m, qs, reqFor, i); } else { KeyFails(bases, qs); }
      }
    }
    if forall q <- qs :: exists s :: Signs(m, q, reqFor, s) {
      hide Plan, Signs, BaseExists;
      AllPlanned(m, qs, reqFor);
      TransmittedExactly(m, qs, reqFor);
    }
  }

  lemma {:induction false} AllSign(m: Message, qs: seq<SignRequest>, reqFor: Option<Request>, i: nat)
    requires Plan(m, qs, reqFor).Ok? && i < |qs|
    ensures Signs(m, qs[i], reqFor, Plan(m, qs, reqFor).value[i].signature)
  {
    hide Plan, BuildBase, BuildHeaders, Signs;
    PlanShape(m, qs, reqFor);
    assert BuildBase(m, qs[i].params, reqFor).Ok?;
    OneHeader(m, qs[i], reqFor, Plan(m, qs, reqFor).value[i]);
  }

  lemma {:induction false} AllPlanned(m: Message, qs: seq<SignRequest>, reqFor: Option<Request>)
    requires forall q <- qs :: exists s :: Signs(m, q, reqFor, s)
    ensures Plan(m, qs, reqFor).Ok?
  {
    hide Plan, BuildBase, AsBytes;
    forall q <- qs ensures Signable(m, q, reqFor) {
      var s :| Signs(m, q, reqFor, s);
    }
    PlannedExactly(m, qs, reqFor);
  }

  lemma {:induction false} TransmittedExactly(m: Message, qs: seq<SignRequest>, reqFor: Option<Request>)
    requires Plan(m, qs, reqFor).Ok?
    ensures var r := SetSignatures(m, qs, reqFor).1;
            && (r.Ok? <==> forall q <- qs :: Transmittable(Label(q)) && Transmittable(PrintParams(q.params)))
            && (r.Err? ==> r == Err(InvalidHeaderValue))
  {
    hide Plan, BuildBase, BuildHeaders, PrintParams, Transmittable, Label, LegalValue, InputValue, GrownBy, NameOf;
    var hs := Plan(m, qs, reqFor).value;
    PlanShape(m, qs, reqFor);
    AppendsPairs(m.headers, hs);
    AppendError(m.headers, hs);
    WrittenExactly(hs);
    hide AppendAll, Written;
    forall i | 0 <= i < |qs|
      ensures LegalValue(InputValue(hs[i])) <==> Transmittable(Label(qs[i])) && Transmittable(PrintParams(qs[i].params))
    {
      assert BuildBase(m, qs[i].params, reqFor).Ok?;
      OneInput(m, qs[i], reqFor, hs[i]);
      LegalExactly(Label(qs[i]), PrintParams(qs[i].params));
    }
    if forall q <- qs :: Transmittable(Label(q)) && Transmittable(PrintParams(q.params)) {
      forall i | 0 <= i < |hs| ensures LegalValue(InputValue(hs[i])) { assert qs[i] in qs; }
    }
    if forall i | 0 <= i < |hs| :: LegalValue(InputValue(hs[i])) {
      forall q <- qs ensures Transmittable(Label(q)) && Transmittable(PrintParams(q.params)) {
        var i :| 0 <= i < |qs| && qs[i] == q;
        assert LegalValue(InputValue(hs[i]));
      }
    }
  }

  lemma {:induction false} LegalExactly(a: string, b: string)
    ensures LegalValue(a + "=" + b) <==> Transmittable(a) && Transmittable(b)
  {
    var s := a + "=" + b;
    assert forall c <- a :: c in s;
    assert forall c <- b :: c in s;
    assert forall c <- s :: c in a || c == '=' || c in b;
  }

  lemma {:induction false} WrittenExactly(hs: seq<SignatureHeaders>)
    ensures Written(hs) == |hs| <==> forall i | 0 <= i < |hs| :: LegalValue(InputValue(hs[i]))
  {
    hide LegalValue, InputValue;
    if hs != [] {
      WrittenExactly(hs[1..]);
      assert forall i | 0 <= i < |hs| - 1 :: hs[1..][i] == hs[i + 1];
    }
  }

  lemma {:induction false} AppendError(h: Headers, hs: seq<SignatureHeaders>)
    ensures AppendAll(h, hs).1.Err? ==> AppendAll(h, hs).1 == Err(InvalidHeaderValue)
    decreases hs
  {
    hide LegalValue, InputValue, SignatureValue, Append;
    if hs != [] {
      AppendError(Append(Append(h, SIGNATURE_INPUT, InputValue(hs[0])), SIGNATURE, SignatureValue(hs[0])), hs[1..]);
    }
  }
}
