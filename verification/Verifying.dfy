/** Verifying the signatures of a message with any number of keys. */
module Verifying {
  import opened Wrappers
  import opened Text
  import opened SignatureParams
  import opened SignatureBase
  import opened SignatureHeaders
  import opened Message
  import opened Signing
  import opened SignatureFields

  datatype VerifyingKey = VerifyingKey(verify: (seq<byte>, seq<byte>) -> bool)

  /** Whatever the signing key produces verifies. */
  ghost predicate Matches(sk: SigningKey, vk: VerifyingKey) {
    forall data: seq<byte> :: sk.sign(data).Some? ==> vk.verify(data, sk.sign(data).value)
  }

  type BaseMap = seq<(string, (SignatureBase, SignatureHeaders))>

  /** Rebuilds the base of every signature; those whose base cannot be built are dropped. */
  function Rebuild(m: Message, entries: HeadersMap, reqFor: Option<Request>): BaseMap
    decreases entries
  {
    if entries == [] then []
    else
      var rest := Rebuild(m, entries[1..], reqFor);
      match BuildBase(m, entries[0].1.params, reqFor)
      case Err(_) => rest
      case Ok(b) => [(entries[0].0, (b, entries[0].1))] + rest
  }

  function ExtractSignatures(m: Message, reqFor: Option<Request>): Result<BaseMap> {
    var entries :- SignatureMap(m);
    Ok(Rebuild(m, entries, reqFor))
  }

  predicate VerifyHeaders(base: SignatureBase, vk: VerifyingKey, h: SignatureHeaders, now: nat) {
    !IsExpired(h.params, now) && vk.verify(AsBytes(base), h.signature)
  }

  predicate KeyIdMatches(base: SignatureBase, keyId: Option<string>) {
    keyId.Some? ==> base.params.keyid == keyId
  }

  function Candidates(bm: BaseMap, keyId: Option<string>): BaseMap {
    if bm == [] then []
    else if KeyIdMatches(bm[0].1.0, keyId) then [bm[0]] + Candidates(bm[1..], keyId)
    else Candidates(bm[1..], keyId)
  }

  function Successes(bm: BaseMap, vk: VerifyingKey, now: nat): seq<string> {
    if bm == [] then []
    else if VerifyHeaders(bm[0].1.0, vk, bm[0].1.1, now) then [bm[0].0] + Successes(bm[1..], vk, now)
    else Successes(bm[1..], vk, now)
  }

  function VerifyOne(bm: BaseMap, vk: VerifyingKey, keyId: Option<string>, now: nat): Result<string> {
    var filtered := Candidates(bm, keyId);
    if filtered == [] then Err(NoSignatureHeaders)
    else
      var names := Successes(filtered, vk, now);
      if names != [] then Ok(names[0]) else Err(InvalidSignature)
  }

  function VerifyEach(bm: BaseMap, keys: seq<(VerifyingKey, Option<string>)>, now: nat): (r: seq<Result<string>>)
    ensures |r| == |keys|
    ensures forall i | 0 <= i < |keys| :: r[i] == VerifyOne(bm, keys[i].0, keys[i].1, now)
  {
    seq(|keys|, i requires 0 <= i < |keys| => VerifyOne(bm, keys[i].0, keys[i].1, now))
  }

  /** `now` stands for the clock. */
  function VerifySignatures(m: Message, keys: seq<(VerifyingKey, Option<string>)>, reqFor: Option<Request>, now: nat)
    : Result<seq<Result<string>>>
  {
    if !HasSignature(m) then Err(NoSignatureHeaders)
    else
      var bm :- ExtractSignatures(m, reqFor);
      Ok(VerifyEach(bm, keys, now))
  }

  /** The last entry of the one-key result, which is never missing. */
  function VerifySignature(m: Message, vk: VerifyingKey, keyId: Option<string>, reqFor: Option<Request>, now: nat)
    : Result<string>
  {
    var r :- VerifySignatures(m, [(vk, keyId)], reqFor, now);
    r[|r| - 1]
  }

  lemma {:induction false} OneKey(m: Message, vk: VerifyingKey, keyId: Option<string>, reqFor: Option<Request>,
                                  now: nat)
    requires ExtractSignatures(m, reqFor).Ok?
    ensures VerifySignature(m, vk, keyId, reqFor, now)
         == VerifyOne(ExtractSignatures(m, reqFor).value, vk, keyId, now)
  {
    hide VerifyOne, Rebuild, TryParse;
    var keys: seq<(VerifyingKey, Option<string>)> := [(vk, keyId)];
    assert |keys| == 1 && keys[0] == (vk, keyId);
  }

  /** The entry has the key id that is asked for, if one is, has not expired at `now`, and its signature
      verifies over the bytes of its base. */
  predicate Passes(e: (string, (SignatureBase, SignatureHeaders)), vk: VerifyingKey, keyId: Option<string>, now: nat) {
    && (keyId.Some? ==> e.1.0.params.keyid == keyId)
    && (e.1.1.params.expires.Some? ==> now <= e.1.1.params.expires.value)
    && vk.verify(AsBytes(e.1.0), e.1.1.signature)
  }

  ghost predicate FirstPassing(bm: BaseMap, vk: VerifyingKey, keyId: Option<string>, now: nat, i: nat) {
    i < |bm| && Passes(bm[i], vk, keyId, now) && forall j | 0 <= j < i :: !Passes(bm[j], vk, keyId, now)
  }

  lemma {:induction false} FirstSuccess(bm: BaseMap, vk: VerifyingKey, keyId: Option<string>, now: nat)
    ensures var names := Successes(Candidates(bm, keyId), vk, now);
            if names == [] then forall e <- bm :: !Passes(e, vk, keyId, now)
            else exists i: nat :: FirstPassing(bm, vk, keyId, now, i) && bm[i].0 == names[0]
  {
    hide AsBytes;
    if bm != [] {
      FirstSuccess(bm[1..], vk, keyId, now);
      var names := Successes(Candidates(bm, keyId), vk, now);
      var cs := Candidates(bm[1..], keyId);
      assert KeyIdMatches(bm[0].1.0, keyId) ==> ([bm[0]] + cs)[1..] == cs;
      if Passes(bm[0], vk, keyId, now) {
        assert FirstPassing(bm, vk, keyId, now, 0);
      } else if names != [] {
        var i: nat :| FirstPassing(bm[1..], vk, keyId, now, i) && bm[1..][i].0 == names[0];
        forall j | 0 <= j < i + 1 ensures !Passes(bm[j], vk, keyId, now) {
          if j > 0 { assert bm[j] == bm[1..][j - 1]; }
        }
        assert FirstPassing(bm, vk, keyId, now, i + 1);
      }
    }
  }

  /** The result for a key is the name of the first entry, in map order, that is a target for the
      key and passes; it is an error exactly when there is none. */
  lemma {:induction false} VerifiesFirstMatch(bm: BaseMap, vk: VerifyingKey, keyId: Option<string>, now: nat)
    ensures VerifyOne(bm, vk, keyId, now).Err? <==> forall e <- bm :: !Passes(e, vk, keyId, now)
    ensures VerifyOne(bm, vk, keyId, now).Ok? ==>
      exists i: nat :: FirstPassing(bm, vk, keyId, now, i) && bm[i].0 == VerifyOne(bm, vk, keyId, now).value
    ensures forall i: nat | FirstPassing(bm, vk, keyId, now, i) :: VerifyOne(bm, vk, keyId, now) == Ok(bm[i].0)
  {
    hide Passes, Candidates, Successes;
    FirstSuccess(bm, vk, keyId, now);
    var names := Successes(Candidates(bm, keyId), vk, now);
    if Candidates(bm, keyId) == [] { assert names == [] by { NoneSucceed(vk, now); } }
    if names != [] {
      var i: nat :| FirstPassing(bm, vk, keyId, now, i) && bm[i].0 == names[0];
      assert bm[i] in bm;
      forall j: nat | FirstPassing(bm, vk, keyId, now, j) ensures j == i {
        assert !(j < i) && !(i < j);
      }
    } else {
      assert forall j: nat | j < |bm| :: bm[j] in bm;
    }
  }

  lemma {:induction false} NoneSucceed(vk: VerifyingKey, now: nat)
    ensures Successes([], vk, now) == []
  {
  }

  /** The results of verifying with several keys: one for each key, in order, and each the first
      match for its own key.  There are results at all exactly when the message's signature fields
      can be read. */
  lemma {:induction false} VerifiesEveryKey(m: Message, keys: seq<(VerifyingKey, Option<string>)>,
                                            reqFor: Option<Request>, now: nat)
    ensures VerifySignatures(m, keys, reqFor, now).Ok? <==> SignatureMap(m).Ok?
    ensures VerifySignatures(m, keys, reqFor, now).Ok? ==>
      var r, bm := VerifySignatures(m, keys, reqFor, now).value, ExtractSignatures(m, reqFor).value;
      && |r| == |keys|
      && forall i | 0 <= i < |keys| ::
           && (r[i].Err? <==> forall e <- bm :: !Passes(e, keys[i].0, keys[i].1, now))
           && (r[i].Ok? ==> exists j: nat :: FirstPassing(bm, keys[i].0, keys[i].1, now, j) && bm[j].0 == r[i].value)
  {
    hide TryParse, Rebuild, VerifyOne, Passes;
    if VerifySignatures(m, keys, reqFor, now).Ok? {
      var bm := ExtractSignatures(m, reqFor).value;
      forall i | 0 <= i < |keys|
        ensures VerifyOne(bm, keys[i].0, keys[i].1, now).Err? <==>
          forall e <- bm :: !Passes(e, keys[i].0, keys[i].1, now)
        ensures VerifyOne(bm, keys[i].0, keys[i].1, now).Ok? ==>
          exists j: nat :: FirstPassing(bm, keys[i].0, keys[i].1, now, j) &&
            bm[j].0 == VerifyOne(bm, keys[i].0, keys[i].1, now).value
      {
        VerifiesFirstMatch(bm, keys[i].0, keys[i].1, now);
      }
    }
  }
}
