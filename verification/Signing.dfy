/** Signing a message: the plan, and the two fields that grow together. */
module Signing {
  import opened Wrappers
  import opened Text
  import opened StructuredFields
  import opened ComponentId
  import opened SignatureParams
  import opened SignatureBase
  import opened SignatureHeaders
  import opened Message
  import Base64

  // ---- Keys ----

  /** A signing key may fail.  Every request signs once, so the function stands for the outcome of
      that one call also when the algorithm is randomised. */
  datatype SigningKey = SigningKey(sign: seq<byte> -> Option<seq<byte>>)

  // ---- Signing ----

  datatype SignRequest = SignRequest(params: SigParams, key: SigningKey, name: Option<string>)

  function NameOf(q: SignRequest): string {
    if q.name.Some? then q.name.value else DEFAULT_SIGNATURE_NAME
  }

  function BuildHeaders(base: SignatureBase, q: SignRequest): Result<SignatureHeaders> {
    var signature :- OkOr(q.key.sign(AsBytes(base)), SigningFailed);
    Ok(SignatureHeaders(NameOf(q), signature, base.params))
  }

  function BuildBases(m: Message, qs: seq<SignRequest>, reqFor: Option<Request>): (r: Result<seq<SignatureBase>>)
    ensures r.Ok? ==> |r.value| == |qs|
  {
    if qs == [] then Ok([])
    else
      var b :- BuildBase(m, qs[0].params, reqFor);
      var bs :- BuildBases(m, qs[1..], reqFor);
      Ok([b] + bs)
  }

  function SignBases(bases: seq<SignatureBase>, qs: seq<SignRequest>): (r: Result<seq<SignatureHeaders>>)
    requires |bases| == |qs|
    ensures r.Ok? ==> |r.value| == |qs|
  {
    if qs == [] then Ok([])
    else
      var h :- BuildHeaders(bases[0], qs[0]);
      var hs :- SignBases(bases[1..], qs[1..]);
      Ok([h] + hs)
  }

  /** All bases are built, and all of them signed, before anything is written. */
  function Plan(m: Message, qs: seq<SignRequest>, reqFor: Option<Request>): (r: Result<seq<SignatureHeaders>>)
    ensures r.Ok? ==> |r.value| == |qs|
  {
    var bases :- BuildBases(m, qs, reqFor);
    SignBases(bases, qs)
  }

  /** Writes the two fields of each signature in turn; an illegal value stops everything. */
  function AppendAll(h: Headers, hs: seq<SignatureHeaders>): (Headers, Result<()>)
    decreases hs
  {
    if hs == [] then (h, Ok(()))
    else if !LegalValue(InputValue(hs[0])) then (h, Err(InvalidHeaderValue))
    else
      var h1 := Append(h, SIGNATURE_INPUT, InputValue(hs[0]));
      if !LegalValue(SignatureValue(hs[0])) then (h1, Err(InvalidHeaderValue))
      else AppendAll(Append(h1, SIGNATURE, SignatureValue(hs[0])), hs[1..])
  }

  function SetSignatures(m: Message, qs: seq<SignRequest>, reqFor: Option<Request>): (Message, Result<()>) {
    match Plan(m, qs, reqFor)
    case Err(e) => (m, Err(e))
    case Ok(hs) =>
      var (h, r) := AppendAll(m.headers, hs);
      (m.(headers := h), r)
  }

  // ---- Both fields grow together ----

  /** A name that is legal in the first field value is legal in the second. */
  lemma {:induction false} LegalTogether(h: SignatureHeaders)
    requires LegalValue(InputValue(h))
    ensures LegalValue(SignatureValue(h))
  {
    hide PrintParams, Base64.Encode;
    Base64.EncodeAlphabet(h.signature);
    var s := InputValue(h);
    forall c <- h.name ensures c in s {
      var i :| 0 <= i < |h.name| && h.name[i] == c;
      assert s[i] == c;
    }
  }

  function InputValues(hs: seq<SignatureHeaders>): (r: seq<string>)
    ensures |r| == |hs| && forall i | 0 <= i < |hs| :: r[i] == InputValue(hs[i])
  {
    seq(|hs|, i requires 0 <= i < |hs| => InputValue(hs[i]))
  }

  function SignatureValues(hs: seq<SignatureHeaders>): (r: seq<string>)
    ensures |r| == |hs| && forall i | 0 <= i < |hs| :: r[i] == SignatureValue(hs[i])
  {
    seq(|hs|, i requires 0 <= i < |hs| => SignatureValue(hs[i]))
  }

  /** `b` is `a` with the field pairs of `hs` behind it and every other field untouched. */
  ghost predicate GrownBy(a: Headers, b: Headers, hs: seq<SignatureHeaders>) {
    && GetAll(b, SIGNATURE_INPUT) == GetAll(a, SIGNATURE_INPUT) + InputValues(hs)
    && GetAll(b, SIGNATURE) == GetAll(a, SIGNATURE) + SignatureValues(hs)
    && forall n: string | n != SIGNATURE && n != SIGNATURE_INPUT :: GetAll(b, n) == GetAll(a, n)
  }

  /** How many signatures are written before an illegal value stops the loop. */
  function Written(hs: seq<SignatureHeaders>): (n: nat)
    ensures n <= |hs|
  {
    if hs != [] && LegalValue(InputValue(hs[0])) then 1 + Written(hs[1..]) else 0
  }

  /** Writing stops at an illegal value or at the end. */
  lemma {:induction false} WrittenStops(hs: seq<SignatureHeaders>)
    requires Written(hs) < |hs|
    ensures !LegalValue(InputValue(hs[Written(hs)]))
  {
    hide LegalValue, InputValue;
    if LegalValue(InputValue(hs[0])) { WrittenStops(hs[1..]); }
  }

  /** The fields after writing one signature. */
  function AppendPair(h: Headers, x: SignatureHeaders): Headers {
    Append(Append(h, SIGNATURE_INPUT, InputValue(x)), SIGNATURE, SignatureValue(x))
  }

  lemma {:induction false} PairAppended(h: Headers, x: SignatureHeaders)
    ensures GrownBy(h, AppendPair(h, x), [x])
  {
    hide InputValue, SignatureValue;
    assert InputValues([x]) == [InputValue(x)] && SignatureValues([x]) == [SignatureValue(x)];
  }

  lemma {:induction false} ValuesAppend(xs: seq<SignatureHeaders>, ys: seq<SignatureHeaders>)
    ensures InputValues(xs + ys) == InputValues(xs) + InputValues(ys)
    ensures SignatureValues(xs + ys) == SignatureValues(xs) + SignatureValues(ys)
  {
    hide InputValue, SignatureValue;
  }

  lemma {:induction false} GrownTwice(a: Headers, b: Headers, c: Headers, xs: seq<SignatureHeaders>,
                                      ys: seq<SignatureHeaders>)
    requires GrownBy(a, b, xs) && GrownBy(b, c, ys)
    ensures GrownBy(a, c, xs + ys)
  {
    hide InputValue, SignatureValue, GetAll, InputValues, SignatureValues;
    ValuesAppend(xs, ys);
    assert GetAll(a, SIGNATURE_INPUT) + InputValues(xs) + InputValues(ys)
        == GetAll(a, SIGNATURE_INPUT) + (InputValues(xs) + InputValues(ys));
    assert GetAll(a, SIGNATURE) + SignatureValues(xs) + SignatureValues(ys)
        == GetAll(a, SIGNATURE) + (SignatureValues(xs) + SignatureValues(ys));
    forall n: string | n != SIGNATURE && n != SIGNATURE_INPUT ensures GetAll(c, n) == GetAll(a, n) {
      assert GetAll(b, n) == GetAll(a, n);
    }
  }

  lemma {:induction false} NotGrown(h: Headers)
    ensures GrownBy(h, h, [])
  {
    hide InputValue, SignatureValue;
    assert InputValues([]) == [] && SignatureValues([]) == [];
  }

  lemma {:induction false} AppendsPairs(h: Headers, hs: seq<SignatureHeaders>)
    ensures GrownBy(h, AppendAll(h, hs).0, hs[..Written(hs)])
    ensures AppendAll(h, hs).1.Ok? <==> Written(hs) == |hs|
    decreases hs
  {
    hide InputValue, SignatureValue, LegalValue, GrownBy, Append;
    if hs != [] && LegalValue(InputValue(hs[0])) {
      LegalTogether(hs[0]);
      var h2 := AppendPair(h, hs[0]);
      PairAppended(h, hs[0]);
      AppendsPairs(h2, hs[1..]);
      var n := Written(hs[1..]);
      GrownTwice(h, h2, AppendAll(h2, hs[1..]).0, [hs[0]], hs[1..][..n]);
      assert hs[..n + 1] == [hs[0]] + hs[1..][..n];
    } else {
      NotGrown(h);
      assert hs[..0] == [];
    }
  }

  /** On every exit the message has gained complete pairs of fields, for a prefix of the requests:
      all of them on success, none if a base or a signature fails, and otherwise those before the
      first illegal value. */
  lemma {:induction false} PairedGrowth(m: Message, qs: seq<SignRequest>, reqFor: Option<Request>)
    ensures var (n, r) := SetSignatures(m, qs, reqFor);
            var plan := Plan(m, qs, reqFor);
            && n.head == m.head
            && (plan.Err? ==> n == m && r.Err?)
            && (plan.Ok? ==>
                && GrownBy(m.headers, n.headers, plan.value[..Written(plan.value)])
                && (r.Ok? <==> Written(plan.value) == |qs|))
  {
    hide AppendAll, GrownBy;
    var plan := Plan(m, qs, reqFor);
    if plan.Ok? {
      AppendsPairs(m.headers, plan.value);
    }
  }

  lemma {:induction false} PlanShape(m: Message, qs: seq<SignRequest>, reqFor: Option<Request>)
    requires Plan(m, qs, reqFor).Ok?
    ensures var hs := Plan(m, qs, reqFor).value;
            forall i | 0 <= i < |qs| ::
              var b := BuildBase(m, qs[i].params, reqFor);
              && b.Ok? && b.value.params == qs[i].params
              && BuildHeaders(b.value, qs[i]) == Ok(hs[i])
              && hs[i].name == NameOf(qs[i]) && hs[i].params == qs[i].params
  {
    hide BuildBase, BuildHeaders, NameOf;
    var bases := BuildBases(m, qs, reqFor).value;
    BasesShape(m, qs, reqFor);
    HeadersShape(bases, qs);
    var hs := Plan(m, qs, reqFor).value;
    forall i | 0 <= i < |qs|
      ensures var b := BuildBase(m, qs[i].params, reqFor);
              && b.Ok? && b.value.params == qs[i].params
              && BuildHeaders(b.value, qs[i]) == Ok(hs[i])
              && hs[i].name == NameOf(qs[i]) && hs[i].params == qs[i].params
    {
      assert BuildBase(m, qs[i].params, reqFor) == Ok(bases[i]);
      BuiltParams(m, qs[i], reqFor);
    }
  }

  lemma {:induction false} BuiltParams(m: Message, q: SignRequest, reqFor: Option<Request>)
    requires BuildBase(m, q.params, reqFor).Ok?
    ensures var b := BuildBase(m, q.params, reqFor).value;
            b.params == q.params
            && (BuildHeaders(b, q).Ok? ==>
                BuildHeaders(b, q).value.name == NameOf(q) && BuildHeaders(b, q).value.params == q.params)
  {
    hide AsBytes, Components;
  }

  lemma {:induction false} BasesShape(m: Message, qs: seq<SignRequest>, reqFor: Option<Request>)
    requires BuildBases(m, qs, reqFor).Ok?
    ensures forall i | 0 <= i < |qs| :: BuildBase(m, qs[i].params, reqFor) == Ok(BuildBases(m, qs, reqFor).value[i])
  {
    hide BuildBase;
    if qs != [] {
      BasesShape(m, qs[1..], reqFor);
      var bs, rest := BuildBases(m, qs, reqFor).value, BuildBases(m, qs[1..], reqFor).value;
      forall i | 0 < i < |qs| ensures BuildBase(m, qs[i].params, reqFor) == Ok(bs[i]) {
        assert qs[i] == qs[1..][i - 1] && bs[i] == rest[i - 1];
      }
    }
  }

  lemma {:induction false} HeadersShape(bases: seq<SignatureBase>, qs: seq<SignRequest>)
    requires |bases| == |qs| && SignBases(bases, qs).Ok?
    ensures forall i | 0 <= i < |qs| :: BuildHeaders(bases[i], qs[i]) == Ok(SignBases(bases, qs).value[i])
  {
    hide BuildHeaders;
    if qs != [] {
      HeadersShape(bases[1..], qs[1..]);
      var hs, rest := SignBases(bases, qs).value, SignBases(bases[1..], qs[1..]).value;
      forall i | 0 < i < |qs| ensures BuildHeaders(bases[i], qs[i]) == Ok(hs[i]) {
        assert qs[i] == qs[1..][i - 1] && bases[i] == bases[1..][i - 1] && hs[i] == rest[i - 1];
      }
    }
  }

  /** The request's base can be built and its key signs it. */
  ghost predicate Signable(m: Message, q: SignRequest, reqFor: Option<Request>) {
    BuildBase(m, q.params, reqFor).Ok? && BuildHeaders(BuildBase(m, q.params, reqFor).value, q).Ok?
  }

  lemma {:induction false} BasesExist(m: Message, qs: seq<SignRequest>, reqFor: Option<Request>)
    requires forall q <- qs :: Signable(m, q, reqFor)
    ensures BuildBases(m, qs, reqFor).Ok?
  {
    hide BuildBase, BuildHeaders;
    if qs != [] {
      assert qs[0] in qs;
      BasesExist(m, qs[1..], reqFor);
    }
  }

  lemma {:induction false} SignaturesExist(bases: seq<SignatureBase>, qs: seq<SignRequest>)
    requires |bases| == |qs| && forall i | 0 <= i < |qs| :: BuildHeaders(bases[i], qs[i]).Ok?
    ensures SignBases(bases, qs).Ok?
  {
    hide BuildHeaders;
    if qs != [] {
      assert BuildHeaders(bases[0], qs[0]).Ok?;
      SignaturesExist(bases[1..], qs[1..]);
    }
  }

  /** Signing gets to writing exactly when every request can be signed on its own. */
  lemma {:induction false} PlannedExactly(m: Message, qs: seq<SignRequest>, reqFor: Option<Request>)
    ensures Plan(m, qs, reqFor).Ok? <==> forall q <- qs :: Signable(m, q, reqFor)
  {
    hide BuildBase, BuildHeaders;
    if forall q <- qs :: Signable(m, q, reqFor) {
      BasesExist(m, qs, reqFor);
      BasesShape(m, qs, reqFor);
      var bases := BuildBases(m, qs, reqFor).value;
      forall i | 0 <= i < |qs| ensures BuildHeaders(bases[i], qs[i]).Ok? {
        assert qs[i] in qs && BuildBase(m, qs[i].params, reqFor) == Ok(bases[i]);
      }
      SignaturesExist(bases, qs);
    }
    if Plan(m, qs, reqFor).Ok? {
      PlanShape(m, qs, reqFor);
      forall q <- qs ensures Signable(m, q, reqFor) {
        var i :| 0 <= i < |qs| && qs[i] == q;
        assert BuildBase(m, qs[i].params, reqFor).Ok?;
      }
    }
  }

  // ---- The message object ----

  class HttpMessage {
    var head: Head
    var headers: Headers

    function View(): Message
      reads this
    {
      Message(head, headers)
    }

    constructor (m: Message)
      ensures View() == m
    {
      head, headers := m.head, m.headers;
    }

    /** Only writes once every base has been built and signed, appending the two fields of each
        signature in turn. */
    method SetMessageSignatures(qs: seq<SignRequest>, reqFor: Option<Request>) returns (r: Result<()>)
      modifies this`headers
      ensures (View(), r) == SetSignatures(old(View()), qs, reqFor)
    {
      hide Plan, InputValue, SignatureValue, LegalValue, Append;
      var plan := Plan(View(), qs, reqFor);
      if plan.Err? { return Err(plan.error); }
      var signed := plan.value;
      assert signed[0..] == signed;
      for i := 0 to |signed|
        invariant AppendAll(headers, signed[i..]) == AppendAll(old(headers), signed)
      {
        assert signed[i..][0] == signed[i] && signed[i..][1..] == signed[i + 1..];
        if !LegalValue(InputValue(signed[i])) { return Err(InvalidHeaderValue); }
        headers := Append(headers, SIGNATURE_INPUT, InputValue(signed[i]));
        if !LegalValue(SignatureValue(signed[i])) { return Err(InvalidHeaderValue); }
        headers := Append(headers, SIGNATURE, SignatureValue(signed[i]));
      }
      return Ok(());
    }
  }
}
