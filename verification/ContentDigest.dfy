/** The `content-digest` field: setting it from a body and checking a body against it. */
module ContentDigest {
  import opened Wrappers
  import opened Text
  import opened StructuredFields
  import opened Message
  import Base64
  import RT = StructuredFieldsRoundTrip
  import SFJ = StructuredFieldsJoin
  import OM = OrderedMap

  datatype DigestType = Sha256 | Sha512

  const CONTENT_DIGEST: string := "content-digest"

  /** The hash functions. */
  type Hasher = (DigestType, seq<byte>) -> seq<byte>

  function TypeText(t: DigestType): string {
    match t
    case Sha256 => "sha-256"
    case Sha512 => "sha-512"
  }

  function TypeFrom(s: string): Result<DigestType> {
    if s == "sha-256" then Ok(Sha256) else if s == "sha-512" then Ok(Sha512) else Err(InvalidHeaderValue)
  }

  function DigestValue(t: DigestType, d: seq<byte>): string {
    TypeText(t) + "=:" + Base64.Encode(d) + ":"
  }

  /** Replaces any digest the message had. */
  function SetContentDigest(m: Message, body: seq<byte>, t: DigestType, hash: Hasher): Message {
    m.(headers := m.headers[CONTENT_DIGEST := [DigestValue(t, hash(t, body))]])
  }

  /** Only the first field value is looked at, and it must hold exactly one digest. */
  function ExtractContentDigest(h: Headers): Result<(DigestType, seq<byte>)> {
    var vs := GetAll(h, CONTENT_DIGEST);
    if vs == [] then Err(NoDigestHeader)
    else if !VisibleValue(vs[0]) then Err(HeaderToStr)
    else
      var d :- OkOr(ParseDictionary(vs[0]), InvalidHeaderValue);
      if |d| != 1 then Err(InvalidHeaderValue)
      else
        var t :- TypeFrom(d[0].0);
        if !(d[0].1.ItemEntry? && d[0].1.item.bare.ByteSequence?) then Err(InvalidHeaderValue)
        else Ok((t, d[0].1.item.bare.bytes))
  }

  /** Lengths first, then byte by byte. */
  predicate IsEqualDigest(a: seq<byte>, b: seq<byte>) {
    |a| == |b| && forall i | 0 <= i < |a| :: a[i] == b[i]
  }

  /** Hands back the message and its body when they match. */
  function VerifyContentDigest(m: Message, body: seq<byte>, hash: Hasher): Result<(Message, seq<byte>)> {
    var expected :- ExtractContentDigest(m.headers);
    if IsEqualDigest(hash(expected.0, body), expected.1) then Ok((m, body)) else Err(InvalidContentDigest)
  }

  lemma {:induction false} DigestReads(t: DigestType, d: seq<byte>)
    ensures VisibleValue(DigestValue(t, d)) && LegalValue(DigestValue(t, d))
    ensures ParseDictionary(DigestValue(t, d)) == Some([(TypeText(t), ItemEntry(Item(ByteSequence(d), [])))])
  {
    hide ParseDictionary, Base64.Encode, TypeText;
    var e := ItemEntry(Item(ByteSequence(d), []));
    var dict: Dictionary := [(TypeText(t), e)];
    var b := Base64.Encode(d);
    Base64.EncodeAlphabet(d);
    TypeIsKey(t);
    assert SerEntry(e) == ":" + b + ":" + "";
    assert TypeText(t) + "=" + (":" + b + ":" + "") == TypeText(t) + "=:" + b + ":";
    assert SerDictionary(dict) == Some(DigestValue(t, d));
    RT.DictionaryRoundTrip(dict);
  }

  lemma {:induction false} TypeIsKey(t: DigestType)
    ensures ValidKey(TypeText(t)) && VisibleValue(TypeText(t))
  {
  }

  /** The field that is set. */
  lemma {:induction false} SetField(m: Message, body: seq<byte>, t: DigestType, hash: Hasher)
    ensures var h := SetContentDigest(m, body, t, hash).headers;
            && "content-digest" in h
            && h["content-digest"]
               == [(if t == Sha256 then "sha-256" else "sha-512") + "=:" + Base64.Encode(hash(t, body)) + ":"]
  {
    hide Base64.Encode;
  }

  /** Setting a digest and reading it back gives exactly the type and the digest; other fields keep
      their values. */
  lemma {:induction false} SetThenExtract(m: Message, body: seq<byte>, t: DigestType, hash: Hasher)
    ensures var n := SetContentDigest(m, body, t, hash);
            && ExtractContentDigest(n.headers) == Ok((t, hash(t, body)))
            && n.head == m.head
            && forall f: string | f != CONTENT_DIGEST :: GetAll(n.headers, f) == GetAll(m.headers, f)
  {
    hide ParseDictionary, DigestValue, VisibleValue;
    DigestReads(t, hash(t, body));
  }

  /** A header that yields a digest accepts exactly the bodies with that digest; any other header
      accepts none. */
  lemma {:induction false} VerifiesExactly(m: Message, body: seq<byte>, hash: Hasher)
    ensures var x := ExtractContentDigest(m.headers);
            && (x.Ok? ==> (VerifyContentDigest(m, body, hash).Ok? <==> x.value.1 == hash(x.value.0, body)))
            && (x.Err? ==> VerifyContentDigest(m, body, hash) == Err(x.error))
    ensures VerifyContentDigest(m, body, hash).Ok? ==> VerifyContentDigest(m, body, hash).value == (m, body)
  {
    hide ExtractContentDigest;
    var x := ExtractContentDigest(m.headers);
    if x.Ok? && IsEqualDigest(hash(x.value.0, body), x.value.1) {
      assert hash(x.value.0, body) == x.value.1;
    }
  }

  /** The answer for every message and body, with the field and the algorithms written out. */
  ghost predicate Answers(m: Message, body: seq<byte>, hash: Hasher, r: Result<(Message, seq<byte>)>) {
    var vs := if "content-digest" in m.headers then m.headers["content-digest"] else [];
    if vs == [] then r == Err(NoDigestHeader)
    else if exists c <- vs[0] :: c > '~' || (c < ' ' && c != '\t') then r == Err(HeaderToStr)
    else if ParseDictionary(vs[0]).None? then r == Err(InvalidHeaderValue)
    else
      var d := ParseDictionary(vs[0]).value;
      if |d| != 1 || d[0].0 !in {"sha-256", "sha-512"} then r == Err(InvalidHeaderValue)
      else if !d[0].1.ItemEntry? || !d[0].1.item.bare.ByteSequence? then r == Err(InvalidHeaderValue)
      else if d[0].1.item.bare.bytes == hash(if d[0].0 == "sha-256" then Sha256 else Sha512, body) then
        r == Ok((m, body))
      else r == Err(InvalidContentDigest)
  }

  /** A body is accepted exactly when the first `content-digest` value is a dictionary with one member,
      under `sha-256` or `sha-512`, that is the digest of the body as bytes, with any parameters. */
  lemma {:induction false} AnswersExactly(m: Message, body: seq<byte>, hash: Hasher)
    ensures Answers(m, body, hash, VerifyContentDigest(m, body, hash))
  {
    hide ParseDictionary;
    var x := ExtractContentDigest(m.headers);
    if x.Ok? && IsEqualDigest(hash(x.value.0, body), x.value.1) {
      assert hash(x.value.0, body) == x.value.1;
    }
  }

  /** A field with two digests is refused, also if both are right. */
  lemma {:induction false} TwoDigestsFail(m: Message, body: seq<byte>, hash: Hasher, a: string, b: string)
    requires "content-digest" in m.headers && m.headers["content-digest"] == [a + ", " + b]
    requires ParseDictionary(a).Some? && ParseDictionary(b).Some?
    requires |ParseDictionary(a).value| == 1 && |ParseDictionary(b).value| == 1
    requires ParseDictionary(a).value[0].0 != ParseDictionary(b).value[0].0
    ensures VerifyContentDigest(m, body, hash).Err?
  {
    hide ParseDictionary, VerifyContentDigest, VisibleValue;
    AnswersExactly(m, body, hash);
    SFJ.JoinIsMerge(a, b);
    var d, e := ParseDictionary(a).value, ParseDictionary(b).value;
    assert d + e == [d[0], e[0]];
    OM.PutAllFresh(d, e);
  }

  /** Round trip: a message whose digest was set verifies with its body unchanged, and with another
      body only if the two bodies have the same digest. */
  lemma {:induction false} SetThenVerify(m: Message, body: seq<byte>, other: seq<byte>, t: DigestType, hash: Hasher)
    ensures var n := SetContentDigest(m, body, t, hash);
            && VerifyContentDigest(n, body, hash) == Ok((n, body))
            && (VerifyContentDigest(n, other, hash).Ok? <==> hash(t, other) == hash(t, body))
  {
    hide ExtractContentDigest, SetContentDigest, VerifyContentDigest;
    var n := SetContentDigest(m, body, t, hash);
    SetThenExtract(m, body, t, hash);
    VerifiesExactly(n, body, hash);
    VerifiesExactly(n, other, hash);
  }
}
