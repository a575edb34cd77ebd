/** What was signed verifies, after one signing call and after any run of them. */
module SigningRuns {
  import opened Wrappers
  import opened Text
  import opened StructuredFields
  import opened ComponentId
  import opened SignatureParams
  import opened SignatureBase
  import opened SignatureHeaders
  import opened Message
  import opened Signing
  import opened SignatureFields
  import opened Readability
  import opened OwnFields
  import opened Verifying

  /** The message carries this signature, and its base can be rebuilt as given.  Whether the message
      can be read depends on what else its fields hold. */
  ghost predicate Carries(m: Message, reqFor: Option<Request>, h: SignatureHeaders, base: SignatureBase) {
    FieldsSpelled(m) && Holds(m, h) && BuildBase(m, h.params, reqFor) == Ok(base)
  }

  /** A base survives a signing call that does not disturb it. */
  lemma {:induction false} BaseSurvives(m: Message, qs: seq<SignRequest>, reqFor: Option<Request>, p: SigParams)
    requires (forall q <- qs :: Proper(q)) && Plan(m, qs, reqFor).Ok?
    requires WellFormedParams(p) && Undisturbed(p, NamesOf(qs)) && BuildBase(m, p, reqFor).Ok?
    ensures BuildBase(SetSignatures(m, qs, reqFor).0, p, reqFor) == BuildBase(m, p, reqFor)
  {
    hide Plan, BuildBase, Proper, SetSignatures, GrownBy, Writable, WellFormedParams, Undisturbed;
    SigningWrites(m, qs, reqFor);
    PlanNames(m, qs, reqFor);
    UndisturbedBase(m, SetSignatures(m, qs, reqFor).0, p, reqFor, Plan(m, qs, reqFor).value);
  }

  /** After one signing call, a request whose name no later request of the call repeats is carried
      with the base that was signed, whether or not the name was in use before: parameters and
      signature are replaced together. */
  lemma {:induction false} SignedIsCarried(m: Message, qs: seq<SignRequest>, reqFor: Option<Request>, i: nat)
    requires FieldsSpelled(m) && (forall q <- qs :: Proper(q)) && Plan(m, qs, reqFor).Ok? && i < |qs|
    requires Undisturbed(qs[i].params, NamesOf(qs))
    requires forall j | i < j < |qs| :: NameOf(qs[j]) != NameOf(qs[i])
    ensures BuildBase(m, qs[i].params, reqFor).Ok? && Plan(m, qs, reqFor).value[i].name == NameOf(qs[i])
    ensures Carries(SetSignatures(m, qs, reqFor).0, reqFor, Plan(m, qs, reqFor).value[i],
                    BuildBase(m, qs[i].params, reqFor).value)
  {
    hide GrownBy, SetSignatures, Plan, BuildBase, BuildHeaders, WellFormedParams, ValidKey, Undisturbed;
    hide FieldsSpelled, Holds, Writable;
    PlanShape(m, qs, reqFor);
    SigningWrites(m, qs, reqFor);
    var hs, n := Plan(m, qs, reqFor).value, SetSignatures(m, qs, reqFor).0;
    assert BuildBase(m, qs[i].params, reqFor).Ok?;
    forall j | i < j < |hs| ensures hs[j].name != hs[i].name {
      assert BuildBase(m, qs[j].params, reqFor).Ok?;
    }
    FieldsGrow(m, hs, n);
    HoldsLast(m, hs, n, i);
    assert qs[i] in qs;
    BaseSurvives(m, qs, reqFor, qs[i].params);
  }

  /** A signature already carried stays carried, unchanged, through a call that neither uses its name
      nor disturbs what it covers. */
  lemma {:induction false} CarriedStays(m: Message, qs: seq<SignRequest>, reqFor: Option<Request>,
                                        h: SignatureHeaders, base: SignatureBase)
    requires Carries(m, reqFor, h, base) && WellFormedParams(h.params) && Undisturbed(h.params, NamesOf(qs))
    requires (forall q <- qs :: Proper(q)) && h.name !in NamesOf(qs) && Plan(m, qs, reqFor).Ok?
    ensures Carries(SetSignatures(m, qs, reqFor).0, reqFor, h, base)
  {
    hide GrownBy, SetSignatures, Plan, BuildBase, Proper, WellFormedParams, FieldsSpelled, Holds, Undisturbed, Writable;
    SigningWrites(m, qs, reqFor);
    PlanNames(m, qs, reqFor);
    var hs, n := Plan(m, qs, reqFor).value, SetSignatures(m, qs, reqFor).0;
    FieldsGrow(m, hs, n);
    HoldsOther(m, hs, n, h);
    BaseSurvives(m, qs, reqFor, h.params);
  }

  lemma {:induction false} RebuildHolds(m: Message, entries: HeadersMap, reqFor: Option<Request>, i: nat,
                                        base: SignatureBase)
    requires i < |entries| && BuildBase(m, entries[i].1.params, reqFor) == Ok(base)
    ensures (entries[i].0, (base, entries[i].1)) in Rebuild(m, entries, reqFor)
    decreases entries
  {
    hide BuildBase;
    if i > 0 {
      RebuildHolds(m, entries[1..], reqFor, i - 1, base);
    }
  }

  /** A carried signature is among the extracted ones, and verifies under a matching key, exactly when
      everything in the message's fields pairs up. */
  lemma {:induction false} CarriedVerifies(m: Message, reqFor: Option<Request>, h: SignatureHeaders,
                                           base: SignatureBase,
                                           vk: VerifyingKey, keyId: Option<string>, now: nat)
    requires Carries(m, reqFor, h, base)
    requires vk.verify(AsBytes(base), h.signature) && (h.params.expires.Some? ==> now <= h.params.expires.value)
    requires keyId.Some? ==> h.params.keyid == keyId
    ensures VerifySignature(m, vk, keyId, reqFor, now).Ok? <==> Receptive(m, [])
    ensures Receptive(m, []) ==>
      ExtractSignatures(m, reqFor).Ok? && (h.name, (base, h)) in ExtractSignatures(m, reqFor).value
  {
    hide AsBytes, VerifyOne, Rebuild, SignatureMap, BuildBase, Holds, FieldsSpelled, PairsOutside;
    HoldsBoth(m, h);
    MapExactly(m);
    if SignatureMap(m).Ok? {
      HoldsExactly(m, h);
      var r := SignatureMap(m).value;
      var i :| 0 <= i < |r| && r[i] == (h.name, h);
      RebuildHolds(m, r, reqFor, i, base);
      BuiltBaseIsExact(m, h.params, reqFor);
      var bm := ExtractSignatures(m, reqFor).value;
      assert Passes((h.name, (base, h)), vk, keyId, now);
      VerifiesFirstMatch(bm, vk, keyId, now);
      OneKey(m, vk, keyId, reqFor, now);
    } else {
      UnreadableFails(m, vk, keyId, reqFor, now);
    }
  }

  lemma {:induction false} UnreadableFails(m: Message, vk: VerifyingKey, keyId: Option<string>,
                                           reqFor: Option<Request>, now: nat)
    requires SignatureMap(m).Err?
    ensures VerifySignature(m, vk, keyId, reqFor, now).Err?
  {
    hide SignatureMap;
  }

  /** What was signed verifies.  After a signing call with proper requests on any message, each request
      whose name is not repeated and whose components the call does not disturb verifies under a
      matching key and key id, and is found with the base that was signed, exactly when both fields
      were absent or spelled members and the call overwrites whatever in them does not pair up. */
  lemma {:induction false} SignThenVerify(m: Message, qs: seq<SignRequest>, reqFor: Option<Request>, i: nat,
                                          vk: VerifyingKey, keyId: Option<string>, now: nat)
    requires (forall q <- qs :: Proper(q)) && SetSignatures(m, qs, reqFor).1.Ok?
    requires i < |qs| && Undisturbed(qs[i].params, NamesOf(qs))
    requires forall j | i < j < |qs| :: NameOf(qs[j]) != NameOf(qs[i])
    requires Matches(qs[i].key, vk) && (qs[i].params.expires.Some? ==> now <= qs[i].params.expires.value)
    requires keyId.Some? ==> qs[i].params.keyid == keyId
    ensures BuildBase(m, qs[i].params, reqFor).Ok? && Plan(m, qs, reqFor).Ok?
    ensures VerifySignature(SetSignatures(m, qs, reqFor).0, vk, keyId, reqFor, now).Ok? <==> Receptive(m, NamesOf(qs))
    ensures Receptive(m, NamesOf(qs)) ==>
      var extracted := ExtractSignatures(SetSignatures(m, qs, reqFor).0, reqFor);
      && extracted.Ok?
      && (NameOf(qs[i]), (BuildBase(m, qs[i].params, reqFor).value, Plan(m, qs, reqFor).value[i])) in extracted.value
  {
    hide AppendAll, ExtractSignatures, VerifySignature, BuildBase, Proper, AsBytes, Undisturbed;
    hide FieldsSpelled, PairsOutside, GrownBy, Holds, Writable, SignatureMap;
    assert Plan(m, qs, reqFor).Ok?;
    PlanShape(m, qs, reqFor);
    var base := BuildBase(m, qs[i].params, reqFor).value;
    hide Plan;
    var n, hs := SetSignatures(m, qs, reqFor).0, Plan(m, qs, reqFor).value;
    assert BuildHeaders(base, qs[i]) == Ok(hs[i]);
    SigningWrites(m, qs, reqFor);
    PlanNames(m, qs, reqFor);
    hide SetSignatures;
    if FieldsSpelled(m) {
      SignedIsCarried(m, qs, reqFor, i);
      CarriedVerifies(n, reqFor, hs[i], base, vk, keyId, now);
      ReceptiveGrows(m, hs, n, []);
      assert HeaderNames(hs) + [] == HeaderNames(hs);
    } else {
      UnspelledBlocks(m, hs, n);
      UnreadableFails(n, vk, keyId, reqFor, now);
    }
  }

  // ---- Whole runs ----

  /** The message after a run of signing calls.  A call that fails is followed by the next one all
      the same. */
  function SignRun(m: Message, calls: seq<seq<SignRequest>>, reqFor: Option<Request>): Message
    decreases calls
  {
    if calls == [] then m else SignRun(SetSignatures(m, calls[0], reqFor).0, calls[1..], reqFor)
  }

  /** The signatures that the calls of a run write. */
  function RunHeaders(m: Message, calls: seq<seq<SignRequest>>, reqFor: Option<Request>): seq<SignatureHeaders>
    decreases calls
  {
    if calls == [] then []
    else
      var plan := Plan(m, calls[0], reqFor);
      (if plan.Ok? then plan.value else []) + RunHeaders(SetSignatures(m, calls[0], reqFor).0, calls[1..], reqFor)
  }

  function RunNames(m: Message, calls: seq<seq<SignRequest>>, reqFor: Option<Request>): seq<string> {
    HeaderNames(RunHeaders(m, calls, reqFor))
  }

  /** With proper requests, a call that fails leaves the message as it was. */
  lemma {:induction false} FailureChangesNothing(m: Message, qs: seq<SignRequest>, reqFor: Option<Request>)
    requires (forall q <- qs :: Proper(q)) && SetSignatures(m, qs, reqFor).1.Err?
    ensures SetSignatures(m, qs, reqFor).0 == m && Plan(m, qs, reqFor).Err?
  {
    hide Plan, Proper, AppendAll, GrownBy;
    if Plan(m, qs, reqFor).Ok? { SigningWrites(m, qs, reqFor); }
  }

  /** A run appends the pairs that its successful calls write, and changes nothing else. */
  lemma {:induction false} RunGrows(m: Message, calls: seq<seq<SignRequest>>, reqFor: Option<Request>)
    requires forall qs <- calls, q <- qs :: Proper(q)
    ensures GrownBy(m.headers, SignRun(m, calls, reqFor).headers, RunHeaders(m, calls, reqFor))
    ensures forall h <- RunHeaders(m, calls, reqFor) :: Writable(h)
    ensures SignRun(m, calls, reqFor).head == m.head
    decreases calls
  {
    hide GrownBy, Writable, Proper, Plan, SetSignatures;
    if calls == [] {
      NotGrown(m.headers);
    } else {
      var qs, rest := calls[0], calls[1..];
      assert qs in calls;
      assert forall x <- rest :: x in calls;
      var n := SetSignatures(m, qs, reqFor).0;
      RunGrows(n, rest, reqFor);
      var first, more := if Plan(m, qs, reqFor).Ok? then Plan(m, qs, reqFor).value else [], RunHeaders(n, rest, reqFor);
      if Plan(m, qs, reqFor).Ok? {
        SigningWrites(m, qs, reqFor);
      } else {
        UnplannedFails(m, qs, reqFor);
        NotGrown(m.headers);
      }
      GrownTwice(m.headers, n.headers, SignRun(n, rest, reqFor).headers, first, more);
    }
  }

  lemma {:induction false} UnplannedFails(m: Message, qs: seq<SignRequest>, reqFor: Option<Request>)
    requires Plan(m, qs, reqFor).Err?
    ensures SetSignatures(m, qs, reqFor).0 == m && SetSignatures(m, qs, reqFor).1.Err?
  {
    hide Plan;
  }

  /** If the call succeeds, it neither uses the name nor disturbs what the parameters cover. */
  ghost predicate Spares(m: Message, qs: seq<SignRequest>, reqFor: Option<Request>, name: string, p: SigParams) {
    SetSignatures(m, qs, reqFor).1.Ok? ==> name !in NamesOf(qs) && Undisturbed(p, NamesOf(qs))
  }

  ghost predicate RunSpares(m: Message, calls: seq<seq<SignRequest>>, reqFor: Option<Request>, name: string,
                            p: SigParams)
    decreases calls
  {
    calls != [] ==>
      && Spares(m, calls[0], reqFor, name, p)
      && RunSpares(SetSignatures(m, calls[0], reqFor).0, calls[1..], reqFor, name, p)
  }

  /** A carried signature survives any run that spares it, with whatever failures. */
  lemma {:induction false} CarriedThroughRun(m: Message, calls: seq<seq<SignRequest>>, reqFor: Option<Request>,
                                             h: SignatureHeaders, base: SignatureBase)
    requires Carries(m, reqFor, h, base) && WellFormedParams(h.params)
    requires forall qs <- calls, q <- qs :: Proper(q)
    requires RunSpares(m, calls, reqFor, h.name, h.params)
    ensures Carries(SignRun(m, calls, reqFor), reqFor, h, base)
    decreases calls
  {
    hide Carries, WellFormedParams, Undisturbed, Proper, AppendAll, SetSignatures;
    if calls != [] {
      assert calls[0] in calls;
      if SetSignatures(m, calls[0], reqFor).1.Ok? {
        PlannedIfSet(m, calls[0], reqFor);
        CarriedStays(m, calls[0], reqFor, h, base);
      } else {
        FailureChangesNothing(m, calls[0], reqFor);
      }
      assert forall qs <- calls[1..] :: qs in calls;
      CarriedThroughRun(SetSignatures(m, calls[0], reqFor).0, calls[1..], reqFor, h, base);
    }
  }

  lemma {:induction false} PlannedIfSet(m: Message, qs: seq<SignRequest>, reqFor: Option<Request>)
    requires SetSignatures(m, qs, reqFor).1.Ok?
    ensures Plan(m, qs, reqFor).Ok?
  {
  }

  lemma {:induction false} RunSplit(m: Message, calls: seq<seq<SignRequest>>, reqFor: Option<Request>, k: nat)
    requires k <= |calls|
    ensures SignRun(m, calls, reqFor) == SignRun(SignRun(m, calls[..k], reqFor), calls[k..], reqFor)
    ensures |RunHeaders(m, calls, reqFor)| >= |RunHeaders(SignRun(m, calls[..k], reqFor), calls[k..], reqFor)|
    decreases calls
  {
    hide SetSignatures, Plan;
    if k == 0 {
      assert calls[..0] == [] && calls[0..] == calls;
    } else {
      RunSplit(SetSignatures(m, calls[0], reqFor).0, calls[1..], reqFor, k - 1);
      assert calls[..k][1..] == calls[1..][..k - 1] && calls[1..][k - 1..] == calls[k..];
    }
  }

  /** After any run the signatures of a message are in order exactly when both of its fields were absent
      or spelled members and the run overwrote whatever in them did not pair up. */
  lemma {:induction false} RunReadyExactly(m: Message, calls: seq<seq<SignRequest>>, reqFor: Option<Request>)
    requires forall qs <- calls, q <- qs :: Proper(q)
    ensures Ready(SignRun(m, calls, reqFor)) <==> Receptive(m, RunNames(m, calls, reqFor))
  {
    hide FieldsSpelled, PairsOutside, GrownBy, Writable, SignRun, RunHeaders, Proper, SignatureMap;
    var hs, n := RunHeaders(m, calls, reqFor), SignRun(m, calls, reqFor);
    RunGrows(m, calls, reqFor);
    ReadyExactly(n);
    assert HeaderNames(hs) + [] == HeaderNames(hs);
    if FieldsSpelled(m) {
      ReceptiveGrows(m, hs, n, []);
    } else if hs == [] {
      BlankStays(m, n);
    } else {
      UnspelledBlocks(m, hs, n);
      GrownFields(m, hs, n);
    }
  }

  lemma {:induction false} BlankStays(m: Message, n: Message)
    requires !FieldsSpelled(m) && GrownBy(m.headers, n.headers, [])
    ensures !FieldsSpelled(n)
  {
    hide Spelled;
    assert InputValues([]) == [] && SignatureValues([]) == [];
    assert GetAll(n.headers, SIGNATURE) == GetAll(m.headers, SIGNATURE);
    assert GetAll(n.headers, SIGNATURE_INPUT) == GetAll(m.headers, SIGNATURE_INPUT);
  }

  /** No run of proper requests makes a message's signatures unreadable. */
  lemma {:induction false} RunStaysReady(m: Message, calls: seq<seq<SignRequest>>, reqFor: Option<Request>)
    requires Ready(m) && forall qs <- calls, q <- qs :: Proper(q)
    ensures Ready(SignRun(m, calls, reqFor))
  {
    hide Ready, Proper, Receptive, SignRun, RunHeaders;
    ReadyExactly(m);
    FewerNames(m, [], RunNames(m, calls, reqFor));
    RunReadyExactly(m, calls, reqFor);
  }

  /** Over any run of signing calls, succeeding or failing, on any message whose fields are absent or
      spell members: a signature made by request `i` of a call `k` that succeeds is still carried at the end, with the
      parameters, bytes and base it was made with, unless a later call that succeeds reuses its name
      or disturbs its components.  On any message at all, it verifies exactly when the fields were absent
      or spelled members at the start and the run overwrote whatever in them did not pair up. */
  lemma {:induction false} RunIndependence(m: Message, calls: seq<seq<SignRequest>>, reqFor: Option<Request>, k: nat,
                                           i: nat,
                                           vk: VerifyingKey, keyId: Option<string>, now: nat)
    requires forall qs <- calls, q <- qs :: Proper(q)
    requires k < |calls| && i < |calls[k]|
    requires SetSignatures(SignRun(m, calls[..k], reqFor), calls[k], reqFor).1.Ok?
    requires forall j | i < j < |calls[k]| :: NameOf(calls[k][j]) != NameOf(calls[k][i])
    requires Undisturbed(calls[k][i].params, NamesOf(calls[k]))
    requires RunSpares(SetSignatures(SignRun(m, calls[..k], reqFor), calls[k], reqFor).0, calls[k + 1..], reqFor,
                       NameOf(calls[k][i]), calls[k][i].params)
    requires Matches(calls[k][i].key, vk)
    requires calls[k][i].params.expires.Some? ==> now <= calls[k][i].params.expires.value
    requires keyId.Some? ==> calls[k][i].params.keyid == keyId
    ensures var at, end := SignRun(m, calls[..k], reqFor), SignRun(m, calls, reqFor);
            && Plan(at, calls[k], reqFor).Ok? && BuildBase(at, calls[k][i].params, reqFor).Ok?
            && (FieldsSpelled(m) ==> Carries(end, reqFor, Plan(at, calls[k], reqFor).value[i],
                                             BuildBase(at, calls[k][i].params, reqFor).value))
            && (VerifySignature(end, vk, keyId, reqFor, now).Ok? <==> Receptive(m, RunNames(m, calls, reqFor)))
  {
    hide Proper, AppendAll, Carries, BuildBase, VerifySignature, SetSignatures, AsBytes, Undisturbed, RunSpares;
    hide FieldsSpelled, PairsOutside, GrownBy, Writable, Ready, SignRun, SignatureMap, RunHeaders;
    var qs := calls[k];
    var at, end := SignRun(m, calls[..k], reqFor), SignRun(m, calls, reqFor);
    RunSplit(m, calls, reqFor, k);
    assert forall x <- calls[..k] :: x in calls;
    assert qs in calls && calls[k..][0] == qs && calls[k..][1..] == calls[k + 1..];
    PlannedIfSet(at, qs, reqFor);
    PlanShape(at, qs, reqFor);
    var base, h := BuildBase(at, qs[i].params, reqFor).value, Plan(at, qs, reqFor).value[i];
    assert BuildHeaders(base, qs[i]) == Ok(h);
    RunTail(at, calls[k..], reqFor);
    hide Plan;
    RunGrows(m, calls, reqFor);
    var hs := RunHeaders(m, calls, reqFor);
    if FieldsSpelled(m) {
      RunGrows(m, calls[..k], reqFor);
      FieldsGrow(m, RunHeaders(m, calls[..k], reqFor), at);
      SignedIsCarried(at, qs, reqFor, i);
      assert forall x <- calls[k + 1..] :: x in calls;
      ProperIsWellFormed(qs[i]);
      CarriedThroughRun(SetSignatures(at, qs, reqFor).0, calls[k + 1..], reqFor, h, base);
      CarriedVerifies(end, reqFor, h, base, vk, keyId, now);
      ReceptiveGrows(m, hs, end, []);
      assert HeaderNames(hs) + [] == HeaderNames(hs);
    } else {
      UnspelledBlocks(m, hs, end);
      UnreadableFails(end, vk, keyId, reqFor, now);
    }
  }

  /** The first call of a run, taken apart. */
  lemma {:induction false} RunTail(m: Message, calls: seq<seq<SignRequest>>, reqFor: Option<Request>)
    requires calls != [] && Plan(m, calls[0], reqFor).Ok?
    ensures SignRun(m, calls, reqFor) == SignRun(SetSignatures(m, calls[0], reqFor).0, calls[1..], reqFor)
    ensures |RunHeaders(m, calls, reqFor)| >= |calls[0]|
  {
    hide Plan, SetSignatures;
  }

  lemma {:induction false} ProperIsWellFormed(q: SignRequest)
    requires Proper(q)
    ensures WellFormedParams(q.params)
  {
  }

  // ---- Signing succeeds ----

  /** With proper requests, signing succeeds exactly when each of them can be signed on its own. */
  lemma {:induction false} SucceedsExactly(m: Message, qs: seq<SignRequest>, reqFor: Option<Request>)
    requires forall q <- qs :: Proper(q)
    ensures SetSignatures(m, qs, reqFor).1.Ok? <==> forall q <- qs :: Signable(m, q, reqFor)
  {
    hide AppendAll, Plan, Proper, Signable;
    PlannedExactly(m, qs, reqFor);
    if Plan(m, qs, reqFor).Ok? { SigningWrites(m, qs, reqFor); }
  }

  const METHOD: ComponentId := ComponentId(Derived(Method), [])

  /** A call that signs the request method under a name. */
  function MethodCall(key: SigningKey, name: string): seq<SignRequest> {
    [SignRequest(OnlyCovered([METHOD]), key, Some(name))]
  }

  lemma {:induction false} MethodIsPlain()
    ensures WellFormedParams(OnlyCovered([METHOD]))
    ensures forall names :: Undisturbed(OnlyCovered([METHOD]), names)
  {
  }

  lemma {:induction false} MethodCallSucceeds(m: Request, key: SigningKey, name: string)
    requires ValidKey(name) && forall data: seq<byte> :: key.sign(data).Some?
    ensures SetSignatures(m, MethodCall(key, name), None).1.Ok?
    ensures forall q <- MethodCall(key, name) :: Proper(q)
  {
    hide SetSignatures, AsBytes, ValidKey, WellFormedParams;
    MethodIsPlain();
    var p, qs := OnlyCovered([METHOD]), MethodCall(key, name);
    assert Components(m, p.covered[1..], None) == Ok([]);
    assert ComponentFor(m, METHOD, None).Ok?;
    BuiltBaseIsExact(m, p, None);
    assert Signable(m, qs[0], None) by { hide BuildBase; }
    hide Signable, Proper;
    SucceedsExactly(m, qs, None);
  }

  /** A complete run in which nothing but the keys is given: any request without signatures, signed
      in two calls under two names, verifies under both keys. */
  lemma {:induction false} SignedTwice(m: Request, s: SigningKey, t: SigningKey, a: string, b: string,
                                       vs: VerifyingKey, vt: VerifyingKey, now: nat)
    requires GetAll(m.headers, SIGNATURE) == [] && GetAll(m.headers, SIGNATURE_INPUT) == []
    requires ValidKey(a) && ValidKey(b) && a != b
    requires forall data: seq<byte> :: s.sign(data).Some? && t.sign(data).Some?
    requires Matches(s, vs) && Matches(t, vt)
    ensures var n := SignRun(m, [MethodCall(s, a), MethodCall(t, b)], None);
            && VerifySignature(n, vs, None, None, now).Ok?
            && VerifySignature(n, vt, None, None, now).Ok?
  {
    hide SetSignatures, VerifySignature, WellFormedParams, Undisturbed, Proper, Matches, ValidKey, Carries;
    hide BuildBase, Plan;
    hide Receptive, RunHeaders, Ready;
    FreshIsReceptive(m, RunNames(m, [MethodCall(s, a), MethodCall(t, b)], None));
    MethodIsPlain();
    var calls := [MethodCall(s, a), MethodCall(t, b)];
    MethodCallSucceeds(m, s, a);
    var n := SetSignatures(m, calls[0], None).0;
    HeadKept(m, calls[0]);
    MethodCallSucceeds(n, t, b);
    assert calls[..0] == [] && calls[..1] == [calls[0]] && calls[..1][1..] == [];
    assert calls[1..] == [calls[1]] && calls[1..][1..] == [] && calls[2..] == [];
    assert SignRun(m, calls[..0], None) == m && SignRun(n, [], None) == n && SignRun(m, calls[..1], None) == n;
    var p := OnlyCovered([METHOD]);
    assert RunSpares(SetSignatures(n, calls[1], None).0, [], None, a, p);
    assert RunSpares(n, calls[1..], None, a, p);
    RunIndependence(m, calls, None, 0, 0, vs, None, now);
    RunIndependence(m, calls, None, 1, 0, vt, None, now);
  }

  /** A message without signature fields can be read after any signing. */
  lemma {:induction false} FreshIsReceptive(m: Message, names: seq<string>)
    requires GetAll(m.headers, SIGNATURE) == [] && GetAll(m.headers, SIGNATURE_INPUT) == []
    ensures Receptive(m, names)
  {
    hide FieldsSpelled, PairsOutside, SignatureMap;
    ReadyExactly(m);
    FewerNames(m, [], names);
  }

  lemma {:induction false} HeadKept(m: Message, qs: seq<SignRequest>)
    ensures SetSignatures(m, qs, None).0.head == m.head
  {
    hide AppendAll, Plan;
  }
}
