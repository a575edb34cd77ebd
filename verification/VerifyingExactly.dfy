/** What verifying a message answers, in terms of the signatures it carries. */
module VerifyingExactly {
  import opened Wrappers
  import opened Text
  import opened StructuredFields
  import opened SignatureParams
  import opened SignatureBase
  import opened SignatureHeaders
  import opened Message
  import opened SignatureFields
  import opened Verifying
  import OM = OrderedMap
  import RT = StructuredFieldsRoundTrip

  /** The entry's base can be built and it has the key id that is asked for, if one is. */
  ghost predicate Target(m: Message, x: (string, SignatureHeaders), keyId: Option<string>, reqFor: Option<Request>) {
    BuildBase(m, x.1.params, reqFor).Ok? && (keyId.Some? ==> x.1.params.keyid == keyId)
  }

  /** The entry is a target, has not expired at `now`, and its signature verifies over its base. */
  ghost predicate Good(m: Message, x: (string, SignatureHeaders), vk: VerifyingKey, keyId: Option<string>,
                       reqFor: Option<Request>, now: nat) {
    && Target(m, x, keyId, reqFor)
    && (x.1.params.expires.Some? ==> now <= x.1.params.expires.value)
    && vk.verify(AsBytes(BuildBase(m, x.1.params, reqFor).value), x.1.signature)
  }

  ghost predicate FirstGood(m: Message, entries: HeadersMap, vk: VerifyingKey, keyId: Option<string>,
                            reqFor: Option<Request>, now: nat, i: nat) {
    && i < |entries| && Good(m, entries[i], vk, keyId, reqFor, now)
    && forall j | 0 <= j < i :: !Good(m, entries[j], vk, keyId, reqFor, now)
  }

  /** What one key is answered. */
  ghost predicate Answers(m: Message, entries: HeadersMap, vk: VerifyingKey, keyId: Option<string>,
                          reqFor: Option<Request>, now: nat, r: Result<string>) {
    match r
    case Ok(name) => exists i: nat :: FirstGood(m, entries, vk, keyId, reqFor, now, i) && entries[i].0 == name
    case Err(e) =>
      && (forall x <- entries :: !Good(m, x, vk, keyId, reqFor, now))
      && e == if exists x <- entries :: Target(m, x, keyId, reqFor) then InvalidSignature else NoSignatureHeaders
  }

  lemma {:induction false} BaseParams(m: Message, p: SigParams, reqFor: Option<Request>)
    ensures BuildBase(m, p, reqFor).Ok? ==> BuildBase(m, p, reqFor).value.params == p
  {
    hide BuildBase;
    BuiltBaseIsExact(m, p, reqFor);
  }

  /** Nothing is a target exactly when nothing is left after filtering by key id. */
  lemma {:induction false} NoTargets(m: Message, entries: HeadersMap, keyId: Option<string>, reqFor: Option<Request>)
    ensures Candidates(Rebuild(m, entries, reqFor), keyId) == [] <==>
      forall x <- entries :: !Target(m, x, keyId, reqFor)
    decreases entries
  {
    hide BuildBase;
    if entries != [] {
      NoTargets(m, entries[1..], keyId, reqFor);
      BaseParams(m, entries[0].1.params, reqFor);
      assert entries == [entries[0]] + entries[1..];
      var rest := Rebuild(m, entries[1..], reqFor);
      var bm := Rebuild(m, entries, reqFor);
      assert BuildBase(m, entries[0].1.params, reqFor).Ok? ==> bm[1..] == rest;
      TargetsApart(m, entries, keyId, reqFor);
    }
  }

  lemma {:induction false} TargetsApart(m: Message, entries: HeadersMap, keyId: Option<string>, reqFor: Option<Request>)
    requires entries != []
    ensures (forall x <- entries :: !Target(m, x, keyId, reqFor)) <==>
      !Target(m, entries[0], keyId, reqFor) && forall x <- entries[1..] :: !Target(m, x, keyId, reqFor)
  {
    hide Target;
    assert entries == [entries[0]] + entries[1..];
    assert entries[0] in entries;
  }

  /** The names that pass, found among the entries. */
  lemma {:induction false} FirstName(m: Message, entries: HeadersMap, vk: VerifyingKey, keyId: Option<string>,
                                     reqFor: Option<Request>, now: nat)
    ensures var names := Successes(Candidates(Rebuild(m, entries, reqFor), keyId), vk, now);
            if names == [] then forall x <- entries :: !Good(m, x, vk, keyId, reqFor, now)
            else exists i: nat :: FirstGood(m, entries, vk, keyId, reqFor, now, i) && entries[i].0 == names[0]
    decreases entries
  {
    hide BuildBase, AsBytes;
    if entries != [] {
      var x, rest := entries[0], entries[1..];
      FirstName(m, rest, vk, keyId, reqFor, now);
      BaseParams(m, x.1.params, reqFor);
      assert entries == [x] + rest;
      var bm, br := Rebuild(m, entries, reqFor), Rebuild(m, rest, reqFor);
      assert BuildBase(m, x.1.params, reqFor).Ok? ==> bm[1..] == br;
      var cs := Candidates(br, keyId);
      assert Target(m, x, keyId, reqFor) ==> Candidates(bm, keyId)[1..] == cs;
      var names := Successes(Candidates(bm, keyId), vk, now);
      if Good(m, x, vk, keyId, reqFor, now) {
        assert FirstGood(m, entries, vk, keyId, reqFor, now, 0);
      } else if names != [] {
        var i: nat :| FirstGood(m, rest, vk, keyId, reqFor, now, i) && rest[i].0 == names[0];
        forall j | 0 <= j < i + 1 ensures !Good(m, entries[j], vk, keyId, reqFor, now) {
          if j > 0 { assert entries[j] == rest[j - 1]; }
        }
        assert FirstGood(m, entries, vk, keyId, reqFor, now, i + 1);
      }
    }
  }

  lemma {:induction false} OneAnswer(m: Message, entries: HeadersMap, vk: VerifyingKey, keyId: Option<string>,
                                     reqFor: Option<Request>, now: nat)
    ensures Answers(m, entries, vk, keyId, reqFor, now, VerifyOne(Rebuild(m, entries, reqFor), vk, keyId, now))
  {
    hide Rebuild, Candidates, Successes, Good, Target, FirstGood;
    NoTargets(m, entries, keyId, reqFor);
    FirstName(m, entries, vk, keyId, reqFor, now);
    if Candidates(Rebuild(m, entries, reqFor), keyId) == [] {
      NoneSucceed(vk, now);
      forall x <- entries ensures !Good(m, x, vk, keyId, reqFor, now) { GoodIsTarget(m, x, vk, keyId, reqFor, now); }
    }
  }

  lemma {:induction false} GoodIsTarget(m: Message, x: (string, SignatureHeaders), vk: VerifyingKey,
                                        keyId: Option<string>, reqFor: Option<Request>, now: nat)
    ensures Good(m, x, vk, keyId, reqFor, now) ==> Target(m, x, keyId, reqFor)
  {
    hide BuildBase, AsBytes;
  }

  /** Verifying answers every key, in order: with the name of the first signature of the message that is
      good for it, or with an error that says whether there was a candidate.  It fails as a whole, with
      the error of reading them, exactly when the signatures cannot be read. */
  lemma {:induction false} VerifiesExactly(m: Message, keys: seq<(VerifyingKey, Option<string>)>,
                                           reqFor: Option<Request>, now: nat)
    ensures var all, r := SignatureMap(m), VerifySignatures(m, keys, reqFor, now);
            && (all.Err? ==> r == Err(all.error))
            && (all.Ok? ==> r.Ok? && |r.value| == |keys|)
            && (all.Ok? ==> forall i | 0 <= i < |keys| ::
                  Answers(m, all.value, keys[i].0, keys[i].1, reqFor, now, r.value[i]))
    ensures var all := SignatureMap(m);
            forall vk, keyId ::
              && (all.Err? ==> VerifySignature(m, vk, keyId, reqFor, now) == Err(all.error))
              && (all.Ok? ==> Answers(m, all.value, vk, keyId, reqFor, now, VerifySignature(m, vk, keyId, reqFor, now)))
  {
    hide TryParse, Rebuild, VerifyOne, Answers, ToTexts;
    if SignatureMap(m).Ok? {
      var all := SignatureMap(m).value;
      forall i | 0 <= i < |keys|
        ensures Answers(m, all, keys[i].0, keys[i].1, reqFor, now,
                        VerifyOne(Rebuild(m, all, reqFor), keys[i].0, keys[i].1, now))
      {
        OneAnswer(m, all, keys[i].0, keys[i].1, reqFor, now);
      }
      forall vk, keyId ensures Answers(m, all, vk, keyId, reqFor, now, VerifySignature(m, vk, keyId, reqFor, now)) {
        OneAnswer(m, all, vk, keyId, reqFor, now);
        OneKey(m, vk, keyId, reqFor, now);
      }
    } else {
      forall vk, keyId ensures VerifySignature(m, vk, keyId, reqFor, now) == Err(SignatureMap(m).error) {
      }
    }
  }

  // ---- Expiry ----

  lemma {:induction false} NamesUnique(m: Message)
    requires SignatureMap(m).Ok?
    ensures OM.UniqueKeys(SignatureMap(m).value)
  {
    hide ParseDictionary, Join, VisibleValue, PairUp, PairedAt, ValidEntry;
    var a, b := Join(GetAll(m.headers, SIGNATURE), ", "), Join(GetAll(m.headers, SIGNATURE_INPUT), ", ");
    RT.ParsedDictionary(a);
    RT.ParsedDictionary(b);
    var ds, di, r := ParseDictionary(a).value, ParseDictionary(b).value, SignatureMap(m).value;
    PairingExact(ds, di, r);
    SameNames(ds, di, r);
  }

  lemma {:induction false} SameNames(ds: Dictionary, di: Dictionary, r: HeadersMap)
    requires Paired(ds, di, r) && OM.UniqueKeys(di)
    ensures OM.UniqueKeys(r)
  {
    hide ParamsFromEntry, IsBytes, OM.Get;
    forall i, j | 0 <= i < j < |r| ensures r[i].0 != r[j].0 {
      assert PairedAt(ds, di[i], r[i]) && PairedAt(ds, di[j], r[j]);
    }
  }

  /** A signature that verifies has not expired: the time of its expiry is not before `now`. */
  lemma {:induction false} VerifiedIsCurrent(m: Message, vk: VerifyingKey, keyId: Option<string>,
                                             reqFor: Option<Request>, now: nat)
    requires VerifySignature(m, vk, keyId, reqFor, now).Ok?
    ensures SignatureMap(m).Ok?
    ensures forall x <- SignatureMap(m).value | x.0 == VerifySignature(m, vk, keyId, reqFor, now).value ::
      x.1.params.expires.Some? ==> now <= x.1.params.expires.value
    ensures exists x <- SignatureMap(m).value :: x.0 == VerifySignature(m, vk, keyId, reqFor, now).value
  {
    hide VerifySignature, VerifySignatures, SignatureMap, BuildBase, AsBytes;
    VerifiesExactly(m, [], reqFor, now);
    NamesUnique(m);
    var all, name := SignatureMap(m).value, VerifySignature(m, vk, keyId, reqFor, now).value;
    var i: nat :| FirstGood(m, all, vk, keyId, reqFor, now, i) && all[i].0 == name;
    assert all[i] in all;
    forall x <- all | x.0 == name ensures x == all[i] {
      var j :| 0 <= j < |all| && all[j] == x;
    }
  }

  /** A message whose signatures have all expired verifies under no key. */
  lemma {:induction false} ExpiredFails(m: Message, vk: VerifyingKey, keyId: Option<string>,
                                        reqFor: Option<Request>, now: nat)
    requires SignatureMap(m).Ok? ==>
      forall x <- SignatureMap(m).value :: x.1.params.expires.Some? && x.1.params.expires.value < now
    ensures VerifySignature(m, vk, keyId, reqFor, now).Err?
  {
    hide VerifySignature, VerifySignatures, SignatureMap, BuildBase, AsBytes;
    VerifiesExactly(m, [], reqFor, now);
    if VerifySignature(m, vk, keyId, reqFor, now).Ok? {
      VerifiedIsCurrent(m, vk, keyId, reqFor, now);
    }
  }
}
