/** How the signatures of a message are read, and every way in which that fails. */
module Reading {
  import opened Wrappers
  import opened Text
  import opened StructuredFields
  import opened SignatureParams
  import opened SignatureHeaders
  import opened Message
  import opened SignatureFields
  import opened SignedFields
  import OM = OrderedMap

  /** The same keys on both sides, bytes on one and inner lists on the other. */
  ghost predicate Matched(signature: Dictionary, input: Dictionary) {
    && (forall k: string :: OM.HasKey(signature, k) <==> OM.HasKey(input, k))
    && (forall m <- signature :: m.1.ItemEntry? && m.1.item.bare.ByteSequence?)
    && (forall m <- input :: m.1.InnerEntry?)
  }

  lemma {:induction false} MatchedPasses(signature: Dictionary, input: Dictionary)
    requires OM.UniqueKeys(signature) && OM.UniqueKeys(input)
    ensures Matched(signature, input) <==>
      && |signature| == |input| && (forall m <- signature :: OM.HasKey(input, m.0))
      && (forall m <- signature :: IsBytes(m.1)) && (forall m <- input :: m.1.InnerEntry?)
  {
    hide OM.Keys;
    forall k ensures k in OM.Keys(signature) <==> OM.HasKey(signature, k) { KeysMeans(signature, k); }
    forall k ensures k in OM.Keys(input) <==> OM.HasKey(input, k) { KeysMeans(input, k); }
    if Matched(signature, input) {
      assert OM.Keys(signature) == OM.Keys(input);
      OM.KeysCount(signature);
      OM.KeysCount(input);
      forall m <- signature ensures OM.HasKey(input, m.0) {
        var i :| 0 <= i < |signature| && signature[i] == m;
        assert OM.HasKey(signature, m.0);
      }
    }
    if |signature| == |input| && forall m <- signature :: OM.HasKey(input, m.0) {
      SameKeys(signature, input);
    }
  }

  /** The first entry whose parameters are refused decides. */
  lemma {:induction false} ConversionFails(signature: Dictionary, input: Dictionary, i: nat)
    requires i < |input| && ParamsFromEntry(input[i].1).Err?
    requires forall j | 0 <= j < i :: ParamsFromEntry(input[j].1).Ok?
    requires forall m <- input :: OM.Get(signature, m.0).Some? && IsBytes(OM.Get(signature, m.0).value)
    ensures ConvertAll(signature, input) == Err(ParamsFromEntry(input[i].1).error)
    decreases input
  {
    hide ParamsFromEntry, IsBytes;
    if i > 0 {
      assert input[0] in input;
      assert ParamsFromEntry(input[0].1).Ok?;
      assert forall j | 0 <= j < i - 1 :: input[1..][j] == input[j + 1];
      ConversionFails(signature, input[1..], i - 1);
    }
  }

  /** Pairing fails for dictionaries that do not match, and otherwise with the first error of converting
      parameters. */
  lemma {:induction false} PairingFails(signature: Dictionary, input: Dictionary)
    requires OM.UniqueKeys(signature) && OM.UniqueKeys(input)
    ensures !Matched(signature, input) ==> PairUp(signature, input) == Err(BuildSignatureHeader)
    ensures Matched(signature, input) ==> forall i | 0 <= i < |input| ::
      ParamsFromEntry(input[i].1).Err? && (forall j | 0 <= j < i :: ParamsFromEntry(input[j].1).Ok?) ==>
        PairUp(signature, input) == Err(ParamsFromEntry(input[i].1).error)
  {
    hide ParamsFromEntry, ConvertAll;
    MatchedPasses(signature, input);
    if Matched(signature, input) {
      forall m <- input ensures OM.Get(signature, m.0).Some? && IsBytes(OM.Get(signature, m.0).value) {
        var i :| 0 <= i < |input| && input[i] == m;
        assert OM.HasKey(input, m.0);
        var e := OM.Get(signature, m.0).value;
        var j :| 0 <= j < |signature| && signature[j] == (m.0, e);
        assert signature[j] in signature;
      }
      forall i | 0 <= i < |input| && ParamsFromEntry(input[i].1).Err?
                 && forall j | 0 <= j < i :: ParamsFromEntry(input[j].1).Ok?
        ensures PairUp(signature, input) == Err(ParamsFromEntry(input[i].1).error)
      {
        ConversionFails(signature, input, i);
      }
    }
  }

  predicate Readable(vs: seq<string>) {
    forall v <- vs, c <- v :: (' ' <= c <= '~') || c as int == 9
  }

  lemma {:induction false} ReadableTexts(vs: seq<string>)
    ensures ToTexts(vs) == if Readable(vs) then Ok(vs) else Err(HeaderToStr)
  {
  }

  /** Both fields must be there and be text; joined, `signature-input` and `signature` must be dictionaries;
      then they are paired up. */
  lemma {:induction false} ReadsFields(m: Message)
    ensures var inputs, signatures := Field(m, "signature-input"), Field(m, "signature");
            var all := SignatureMap(m);
            if inputs == [] || signatures == [] then all == Err(NoSignatureHeaders)
            else if !Readable(inputs) || !Readable(signatures) then all == Err(HeaderToStr)
            else
              var i, s := ParseDictionary(Join(inputs, ", ")), ParseDictionary(Join(signatures, ", "));
              if i.None? || s.None? then all == Err(ParseSfv) else all == PairUp(s.value, i.value)
  {
    hide ParseDictionary, Join, PairUp, Readable, ToTexts;
    ReadableTexts(Field(m, "signature-input"));
    ReadableTexts(Field(m, "signature"));
  }
}
