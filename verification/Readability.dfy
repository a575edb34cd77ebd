/** When the signatures of a message can be read.  Signing does not look at the signature fields that
    are there already, so whether they still pair up afterwards depends on them and on the names that
    a signing call writes. */
module Readability {
  import opened Wrappers
  import opened Text
  import opened StructuredFields
  import opened SignatureParams
  import opened SignatureHeaders
  import opened Message
  import opened Signing
  import opened SignatureFields
  import opened Parity
  import Escaping
  import Base64
  import RT = StructuredFieldsRoundTrip
  import SFJ = StructuredFieldsJoin
  import OM = OrderedMap

  // ---- What the fields hold ----

  /** The field is absent, or its values are text and their join is a dictionary. */
  predicate Legible(vals: seq<string>) {
    (forall v <- vals :: VisibleValue(v)) && ParseDictionary(Join(vals, ", ")).Some?
  }

  /** The field is absent, or spells a dictionary with members. */
  predicate Spelled(vals: seq<string>) {
    Legible(vals) && (vals != [] ==> ParseDictionary(Join(vals, ", ")).value != [])
  }

  predicate FieldsParse(m: Message) {
    Legible(GetAll(m.headers, SIGNATURE)) && Legible(GetAll(m.headers, SIGNATURE_INPUT))
  }

  predicate FieldsSpelled(m: Message) {
    Spelled(GetAll(m.headers, SIGNATURE)) && Spelled(GetAll(m.headers, SIGNATURE_INPUT))
  }

  function SignaturesOf(m: Message): Dictionary {
    OldDictionary(GetAll(m.headers, SIGNATURE))
  }

  function InputsOf(m: Message): Dictionary {
    OldDictionary(GetAll(m.headers, SIGNATURE_INPUT))
  }

  /** The key is on both sides or on none; if there, with bytes on one and parameters on the other. */
  predicate PairedKey(signature: Dictionary, input: Dictionary, k: string) {
    && (OM.HasKey(signature, k) <==> OM.HasKey(input, k))
    && (OM.HasKey(signature, k) && OM.HasKey(input, k) ==>
        IsBytes(OM.Get(signature, k).value) && ParamsFromEntry(OM.Get(input, k).value).Ok?)
  }

  ghost predicate PairsOutside(signature: Dictionary, input: Dictionary, names: seq<string>) {
    forall k: string | k !in names :: PairedKey(signature, input, k)
  }

  /** The fields are absent or hold members, and whatever does not pair up is under one of these
      names. */
  ghost predicate Receptive(m: Message, names: seq<string>) {
    FieldsSpelled(m) && PairsOutside(SignaturesOf(m), InputsOf(m), names)
  }

  lemma {:induction false} DictionaryUnique(vals: seq<string>)
    ensures OM.UniqueKeys(OldDictionary(vals))
  {
    hide ParseDictionary, Join, ValidEntry;
    if vals != [] && ParseDictionary(Join(vals, ", ")).Some? {
      RT.ParsedDictionary(Join(vals, ", "));
    }
  }

  // ---- Pairing, key by key ----

  lemma {:induction false} PairUpPairs(signature: Dictionary, input: Dictionary)
    requires OM.UniqueKeys(signature) && OM.UniqueKeys(input) && PairUp(signature, input).Ok?
    ensures PairsOutside(signature, input, [])
  {
    hide PairUp, ParamsFromEntry, IsBytes, OM.Keys, OM.Get;
    var r := PairUp(signature, input).value;
    PairingExact(signature, input, r);
    forall k: string ensures PairedKey(signature, input, k) {
      KeysMeans(signature, k);
      KeysMeans(input, k);
      if OM.HasKey(input, k) {
        var i :| 0 <= i < |input| && input[i].0 == k;
        OM.GetAt(input, i);
        assert PairedAt(signature, input[i], r[i]);
      }
    }
  }

  predicate Convertible(signature: Dictionary, m: (string, ListEntry)) {
    && OM.Get(signature, m.0).Some? && IsBytes(OM.Get(signature, m.0).value)
    && ParamsFromEntry(m.1).Ok?
  }

  function ConvertOne(signature: Dictionary, m: (string, ListEntry)): (h: (string, SignatureHeaders))
    requires Convertible(signature, m)
    ensures PairedAt(signature, m, h)
  {
    (m.0, SignatureHeaders(m.0, OM.Get(signature, m.0).value.item.bare.bytes, ParamsFromEntry(m.1).value))
  }

  /** What pairing keys are converted to. */
  function Conversion(signature: Dictionary, input: Dictionary): (r: HeadersMap)
    requires forall i | 0 <= i < |input| :: Convertible(signature, input[i])
    ensures |r| == |input|
    ensures forall i | 0 <= i < |input| :: PairedAt(signature, input[i], r[i])
  {
    seq(|input|, i requires 0 <= i < |input| => ConvertOne(signature, input[i]))
  }

  lemma {:induction false} PairsPairUp(signature: Dictionary, input: Dictionary)
    requires OM.UniqueKeys(signature) && OM.UniqueKeys(input) && PairsOutside(signature, input, [])
    ensures PairUp(signature, input).Ok?
  {
    hide PairUp, ParamsFromEntry, IsBytes, OM.Keys, OM.Get, PairedAt;
    forall i | 0 <= i < |input| ensures Convertible(signature, input[i]) {
      OM.GetAt(input, i);
      assert PairedKey(signature, input, input[i].0);
    }
    var r := Conversion(signature, input);
    assert OM.Keys(signature) == OM.Keys(input) by {
      forall k: string ensures k in OM.Keys(signature) <==> k in OM.Keys(input) {
        KeysMeans(signature, k);
        KeysMeans(input, k);
        assert PairedKey(signature, input, k);
      }
    }
    PairingExact(signature, input, r);
  }

  /** A written pair takes its key out of consideration. */
  lemma {:induction false} PutPairs(s: Dictionary, i: Dictionary, k: string, b: ListEntry, e: ListEntry,
                                    names: seq<string>)
    requires IsBytes(b) && ParamsFromEntry(e).Ok?
    ensures PairsOutside(OM.Put(s, k, b), OM.Put(i, k, e), names) <==> PairsOutside(s, i, names + [k])
  {
    hide OM.Get, OM.Put, OM.HasKey, ParamsFromEntry, IsBytes;
    forall j: string
      ensures PairedKey(OM.Put(s, k, b), OM.Put(i, k, e), j) <==> j == k || PairedKey(s, i, j)
    {
      OM.GetPut(s, k, b, j);
      OM.GetPut(i, k, e, j);
    }
    assert forall j: string :: j in names + [k] <==> j in names || j == k;
  }

  // ---- Written pairs ----

  function SignaturePairs(hs: seq<SignatureHeaders>): (r: Dictionary)
    ensures |r| == |hs| && forall i | 0 <= i < |hs| :: r[i] == (hs[i].name, SignatureEntry(hs[i]))
  {
    seq(|hs|, i requires 0 <= i < |hs| => (hs[i].name, SignatureEntry(hs[i])))
  }

  function InputPairs(hs: seq<SignatureHeaders>): (r: Dictionary)
    ensures |r| == |hs| && forall i | 0 <= i < |hs| :: r[i] == (hs[i].name, InputEntry(hs[i]))
  {
    seq(|hs|, i requires 0 <= i < |hs| => (hs[i].name, InputEntry(hs[i])))
  }

  lemma {:induction false} WrittenPairs(s: Dictionary, i: Dictionary, hs: seq<SignatureHeaders>, names: seq<string>)
    requires forall h <- hs :: ParamsFromEntry(InputEntry(h)).Ok?
    ensures PairsOutside(OM.PutAll(s, SignaturePairs(hs)), OM.PutAll(i, InputPairs(hs)), names)
       <==> PairsOutside(s, i, HeaderNames(hs) + names)
    decreases hs
  {
    hide ParamsFromEntry, PairedKey, SignatureEntry, InputEntry, OM.Put;
    if hs == [] {
      assert HeaderNames(hs) + names == names;
    } else {
      var h, rest := hs[0], hs[1..];
      assert h in hs;
      assert SignaturePairs(hs)[1..] == SignaturePairs(rest) && InputPairs(hs)[1..] == InputPairs(rest);
      WrittenPairs(OM.Put(s, h.name, SignatureEntry(h)), OM.Put(i, h.name, InputEntry(h)), rest, names);
      SignatureEntryIsBytes(h);
      PutPairs(s, i, h.name, SignatureEntry(h), InputEntry(h), HeaderNames(rest) + names);
      assert HeaderNames(hs) == [h.name] + HeaderNames(rest);
      assert forall k: string :: k in HeaderNames(hs) + names <==> k in HeaderNames(rest) + names + [h.name];
    }
  }

  lemma {:induction false} JoinedPutAll(vals: seq<string>, more: seq<string>, pairs: Dictionary)
    requires Spelled(vals) && |more| == |pairs|
    requires forall i | 0 <= i < |more| :: ParseDictionary(more[i]) == Some([pairs[i]]) && VisibleValue(more[i])
    ensures Spelled(vals + more) && OldDictionary(vals + more) == OM.PutAll(OldDictionary(vals), pairs)
    decreases pairs
  {
    hide ParseDictionary, Join, VisibleValue, OM.Put;
    if pairs == [] {
      assert vals + more == vals;
    } else {
      var v, p, next := more[0], pairs[0], vals + [more[0]];
      assert pairs[0] == (p.0, p.1);
      JoinedPut(vals, v, p.0, p.1);
      PutNotEmpty(OldDictionary(vals), p);
      assert vals + more == next + more[1..];
      JoinedPutAll(next, more[1..], pairs[1..]);
    }
  }

  lemma {:induction false} PutNotEmpty(d: Dictionary, p: (string, ListEntry))
    ensures OM.Put(d, p.0, p.1) != []
  {
  }

  /** Written signatures are inserted on both sides, whatever is there. */
  lemma {:induction false} FieldsGrow(m: Message, hs: seq<SignatureHeaders>, n: Message)
    requires FieldsSpelled(m) && (forall h <- hs :: Writable(h)) && GrownBy(m.headers, n.headers, hs)
    ensures FieldsSpelled(n)
    ensures SignaturesOf(n) == OM.PutAll(SignaturesOf(m), SignaturePairs(hs))
    ensures InputsOf(n) == OM.PutAll(InputsOf(m), InputPairs(hs))
    ensures forall h <- hs :: ParamsFromEntry(InputEntry(h)) == Ok(h.params)
  {
    hide ParseDictionary, VisibleValue, InputValue, SignatureValue, InputEntry, SignatureEntry, ParamsFromEntry;
    hide Spelled, OldDictionary, WellFormedParams, ValidKey, OM.PutAll;
    forall i | 0 <= i < |hs|
      ensures ParseDictionary(InputValues(hs)[i]) == Some([InputPairs(hs)[i]]) && VisibleValue(InputValues(hs)[i])
      ensures ParseDictionary(SignatureValues(hs)[i]) == Some([SignaturePairs(hs)[i]]) &&
        VisibleValue(SignatureValues(hs)[i])
      ensures ParamsFromEntry(InputEntry(hs[i])) == Ok(hs[i].params)
    {
      assert hs[i] in hs;
      InputReads(hs[i]);
      SignatureReads(hs[i]);
      WritableIsVisible(hs[i]);
    }
    JoinedPutAll(GetAll(m.headers, SIGNATURE), SignatureValues(hs), SignaturePairs(hs));
    JoinedPutAll(GetAll(m.headers, SIGNATURE_INPUT), InputValues(hs), InputPairs(hs));
  }

  /** Afterwards less has to pair up: the written names are taken care of. */
  lemma {:induction false} ReceptiveGrows(m: Message, hs: seq<SignatureHeaders>, n: Message, names: seq<string>)
    requires FieldsSpelled(m) && (forall h <- hs :: Writable(h)) && GrownBy(m.headers, n.headers, hs)
    ensures Receptive(n, names) <==> Receptive(m, HeaderNames(hs) + names)
  {
    hide Writable, GrownBy, FieldsSpelled, ParamsFromEntry, PairsOutside, OM.PutAll;
    FieldsGrow(m, hs, n);
    WrittenPairs(SignaturesOf(m), InputsOf(m), hs, names);
  }

  // ---- Reading a message ----

  lemma {:induction false} MapIsPairing(m: Message)
    requires FieldsSpelled(m) && HasSignature(m)
    ensures SignatureMap(m) == PairUp(SignaturesOf(m), InputsOf(m))
    ensures SignaturesOf(m) != [] && InputsOf(m) != []
  {
    hide ParseDictionary, Join, VisibleValue, PairUp;
  }

  /** With fields that hold members, the signatures can be read exactly when all members pair up. */
  lemma {:induction false} MapExactly(m: Message)
    requires FieldsSpelled(m) && HasSignature(m)
    ensures SignatureMap(m).Ok? <==> Receptive(m, [])
    ensures SignatureMap(m).Ok? ==>
      SignatureMap(m).value != [] && Paired(SignaturesOf(m), InputsOf(m), SignatureMap(m).value)
  {
    hide PairUp, PairsOutside, OldDictionary, FieldsSpelled, SignatureMap, HasSignature, PairedAt;
    MapIsPairing(m);
    var s, i := SignaturesOf(m), InputsOf(m);
    DictionaryUnique(GetAll(m.headers, SIGNATURE));
    DictionaryUnique(GetAll(m.headers, SIGNATURE_INPUT));
    if PairUp(s, i).Ok? {
      PairUpPairs(s, i);
      PairingExact(s, i, PairUp(s, i).value);
    }
    if Receptive(m, []) { PairsPairUp(s, i); }
  }

  lemma {:induction false} ReadyIsSpelled(m: Message)
    requires Ready(m)
    ensures FieldsSpelled(m)
  {
    hide ParseDictionary, Join, VisibleValue, PairUp;
    OldDictionaries(m);
    NoDictionary();
  }

  lemma {:induction false} NoDictionary()
    ensures ParseDictionary(Join([], ", ")) == Some([])
  {
    var none: seq<(string, ListEntry)> := [];
    assert ParseMembers(true, "") == Some(none);
  }

  lemma {:induction false} NothingUnpaired()
    ensures PairsOutside([], [], [])
  {
  }

  /** With only one of the fields, something does not pair up. */
  lemma {:induction false} LoneUnpaired(m: Message)
    requires FieldsSpelled(m) && !HasSignature(m)
    ensures Receptive(m, []) <==> GetAll(m.headers, SIGNATURE) == [] && GetAll(m.headers, SIGNATURE_INPUT) == []
  {
    hide ParseDictionary, Join, VisibleValue;
    var s, i := SignaturesOf(m), InputsOf(m);
    NothingUnpaired();
    if s != [] && i == [] {
      assert OM.HasKey(s, s[0].0) && !OM.HasKey(i, s[0].0);
      assert !PairedKey(s, i, s[0].0);
    }
    if i != [] && s == [] {
      assert OM.HasKey(i, i[0].0) && !OM.HasKey(s, i[0].0);
      assert !PairedKey(s, i, i[0].0);
    }
  }

  /** A message is ready exactly when its fields are absent or hold members, all of which pair up. */
  lemma {:induction false} ReadyExactly(m: Message)
    ensures Ready(m) <==> Receptive(m, [])
  {
    hide PairsOutside, SignatureMap, FieldsSpelled;
    if Ready(m) { ReadyIsSpelled(m); }
    if FieldsSpelled(m) {
      if HasSignature(m) { MapExactly(m); } else { LoneUnpaired(m); NoSignatureNoMap(m); }
    }
  }

  lemma {:induction false} NoSignatureNoMap(m: Message)
    requires !HasSignature(m)
    ensures SignatureMap(m).Err?
  {
  }

  lemma {:induction false} FewerNames(m: Message, names: seq<string>, more: seq<string>)
    requires Receptive(m, names) && forall k <- names :: k in more
    ensures Receptive(m, more)
  {
    hide FieldsSpelled, PairedKey;
  }

  // ---- Blank fields ----

  /** Values that spell an empty dictionary make every join behind them unreadable. */
  lemma {:induction false} BlankJoin(vals: seq<string>, more: seq<string>)
    requires vals != [] && more != [] && ParseDictionary(Join(vals, ", ")) == Some([])
    ensures ParseDictionary(Join(vals + more, ", ")).None?
  {
    hide Join, Run;
    var a, t := Join(vals, ", "), ", " + Join(more, ", ");
    JoinAppend(vals, more, ", ");
    assert Join(vals + more, ", ") == a + t;
    SFJ.BlankThenComma(a, t);
  }

  lemma {:induction false} GrownFields(m: Message, hs: seq<SignatureHeaders>, n: Message)
    requires GrownBy(m.headers, n.headers, hs) && hs != []
    ensures HasSignature(n)
    ensures InputValues(hs) != [] && SignatureValues(hs) != []
  {
  }

  /** A field that parses without holding a member makes everything behind it unreadable. */
  lemma {:induction false} BlankBlocks(m: Message, hs: seq<SignatureHeaders>, n: Message)
    requires FieldsParse(m) && !FieldsSpelled(m) && hs != [] && GrownBy(m.headers, n.headers, hs)
    ensures SignatureMap(n).Err?
  {
    hide ParseDictionary, Join, PairUp, VisibleValue, InputValue, SignatureValue;
    GrownFields(m, hs, n);
    var inputs, signatures := GetAll(m.headers, SIGNATURE_INPUT), GetAll(m.headers, SIGNATURE);
    if !Spelled(inputs) {
      BlankJoin(inputs, InputValues(hs));
    } else {
      BlankJoin(signatures, SignatureValues(hs));
    }
  }

  /** A field with one value that holds nothing but spaces. */
  predicate OneBlank(vals: seq<string>) {
    |vals| == 1 && Skip(vals[0], IsSp) == ""
  }

  lemma {:induction false} JoinBlank(vals: seq<string>)
    requires vals != []
    ensures Skip(Join(vals, ", "), IsSp) == "" <==> OneBlank(vals)
  {
    var s := Join(vals, ", ");
    if |vals| > 1 {
      assert s[|vals[0]|] == ',';
    }
  }

  /** Exactly these fields parse without holding a member. */
  lemma {:induction false} BlankExactly(vals: seq<string>)
    ensures Legible(vals) && !Spelled(vals) <==> OneBlank(vals)
  {
    hide ParseDictionary, Join, VisibleValue, Run, Skip;
    if vals != [] { JoinBlank(vals); }
    if Legible(vals) { RT.ParsedDictionary(Join(vals, ", ")); }
    if OneBlank(vals) {
      BlankParses(vals[0]);
      SingleJoin(vals[0]);
      assert vals == [vals[0]];
    }
  }

  lemma {:induction false} SingleJoin(v: string)
    ensures Join([v], ", ") == v
  {
  }

  lemma {:induction false} BlankParses(v: string)
    requires Skip(v, IsSp) == ""
    ensures ParseDictionary(v) == Some([]) && VisibleValue(v)
  {
    assert Run(v, IsSp) == |v|;
    var none: seq<(string, ListEntry)> := [];
    assert ParseMembers(true, "") == Some(none);
  }

  // ---- Fields that do not parse ----

  /** What is written has no backslash and an even number of quotation marks. */
  lemma {:induction false} WrittenIsEven(h: SignatureHeaders)
    requires Writable(h)
    ensures Quiet(InputValue(h)) && Even(InputValue(h)) && Quiet(SignatureValue(h)) && Even(SignatureValue(h))
  {
    hide PrintParams, Base64.Encode, WellFormedParams, ParseDictionary, ParamsFromEntry, InputEntry, SignatureEntry;
    assert PlainParams(h.params) by { PlainIfWellFormed(h.params); }
    Escaping.PlainPrintsQuiet(h.params);
    Escaping.KeyPlain(h.name);
    Base64.EncodeAlphabet(h.signature);
    InputReads(h);
    SignatureReads(h);
    DictionaryEven(InputValue(h));
    DictionaryEven(SignatureValue(h));
  }

  lemma {:induction false} PlainIfWellFormed(p: SigParams)
    requires WellFormedParams(p)
    ensures PlainParams(p)
  {
    hide PlainParams;
  }

  lemma {:induction false} JoinEven(vals: seq<string>)
    requires forall v <- vals :: Quiet(v) && Even(v)
    ensures Quiet(Join(vals, ", ")) && Even(Join(vals, ", "))
  {
    hide Escaping.Marks;
    if vals == [] {
      Escaping.NoMarks('"', "");
    } else if |vals| > 1 {
      assert vals[0] in vals;
      JoinEven(vals[1..]);
      Escaping.NoMarks('"', ", ");
      Escaping.MarksAppend('"', vals[0], ", ");
      Escaping.MarksAppend('"', vals[0] + ", ", Join(vals[1..], ", "));
    }
  }

  lemma {:induction false} IllegibleStays(vals: seq<string>, more: seq<string>)
    requires !Legible(vals) && more != [] && forall v <- more :: Quiet(v) && Even(v)
    ensures !Legible(vals + more)
  {
    hide ParseDictionary, VisibleValue, Join, Quiet, Even;
    if exists v <- vals :: !VisibleValue(v) {
      var v :| v in vals && !VisibleValue(v);
      assert v in vals + more;
    } else {
      if vals == [] { NoDictionary(); }
      JoinAppend(vals, more, ", ");
      JoinEven(more);
      NeverRepaired(Join(vals, ", "), Join(more, ", "));
    }
  }

  /** A field that does not parse is never repaired by what is written behind it. */
  lemma {:induction false} UnparsedBlocks(m: Message, hs: seq<SignatureHeaders>, n: Message)
    requires !FieldsParse(m) && hs != [] && (forall h <- hs :: Writable(h)) && GrownBy(m.headers, n.headers, hs)
    ensures SignatureMap(n).Err?
  {
    hide ParseDictionary, Join, PairUp, VisibleValue, InputValue, SignatureValue, Quiet, Even, Writable;
    GrownFields(m, hs, n);
    var inputs, signatures := GetAll(m.headers, SIGNATURE_INPUT), GetAll(m.headers, SIGNATURE);
    forall v <- InputValues(hs) ensures Quiet(v) && Even(v) {
      var i :| 0 <= i < |hs| && InputValues(hs)[i] == v;
      assert hs[i] in hs;
      WrittenIsEven(hs[i]);
    }
    forall v <- SignatureValues(hs) ensures Quiet(v) && Even(v) {
      var i :| 0 <= i < |hs| && SignatureValues(hs)[i] == v;
      assert hs[i] in hs;
      WrittenIsEven(hs[i]);
    }
    if !Legible(inputs) {
      IllegibleStays(inputs, InputValues(hs));
    } else {
      IllegibleStays(signatures, SignatureValues(hs));
    }
  }

  /** A field that is there without spelling a member, blank or not parsing, makes everything behind it
      unreadable. */
  lemma {:induction false} UnspelledBlocks(m: Message, hs: seq<SignatureHeaders>, n: Message)
    requires !FieldsSpelled(m) && hs != [] && (forall h <- hs :: Writable(h)) && GrownBy(m.headers, n.headers, hs)
    ensures SignatureMap(n).Err?
  {
    hide FieldsParse, FieldsSpelled, GrownBy, Writable, SignatureMap;
    if FieldsParse(m) { BlankBlocks(m, hs, n); } else { UnparsedBlocks(m, hs, n); }
  }

  // ---- The exact condition ----

  /** Written signatures can be read exactly when both fields were absent or spelled members, and
      everything that does not pair up is overwritten. */
  lemma {:induction false} GrownReadable(m: Message, hs: seq<SignatureHeaders>, n: Message)
    requires hs != [] && (forall h <- hs :: Writable(h)) && GrownBy(m.headers, n.headers, hs)
    ensures SignatureMap(n).Ok? <==> Receptive(m, HeaderNames(hs))
  {
    hide FieldsSpelled, GrownBy, Writable, SignatureMap, PairsOutside, HasSignature;
    if FieldsSpelled(m) {
      FieldsGrow(m, hs, n);
      GrownFields(m, hs, n);
      MapExactly(n);
      ReceptiveGrows(m, hs, n, []);
      assert HeaderNames(hs) + [] == HeaderNames(hs);
    } else {
      UnspelledBlocks(m, hs, n);
    }
  }

  function NamesOf(qs: seq<SignRequest>): (r: seq<string>)
    ensures |r| == |qs| && forall i | 0 <= i < |qs| :: r[i] == NameOf(qs[i])
  {
    seq(|qs|, i requires 0 <= i < |qs| => NameOf(qs[i]))
  }

  lemma {:induction false} PlanNames(m: Message, qs: seq<SignRequest>, reqFor: Option<Request>)
    requires Plan(m, qs, reqFor).Ok?
    ensures HeaderNames(Plan(m, qs, reqFor).value) == NamesOf(qs)
  {
    hide Plan, BuildBase, BuildHeaders, NameOf;
    PlanShape(m, qs, reqFor);
    var hs := Plan(m, qs, reqFor).value;
    forall i | 0 <= i < |qs| ensures HeaderNames(hs)[i] == NamesOf(qs)[i] {
      assert BuildBase(m, qs[i].params, reqFor).Ok?;
    }
  }

  /** After a signing call the signatures of a message can be read exactly when both of its fields were
      absent or spelled members, and every member without its partner, or of another type, is under a
      name that the call writes. */
  lemma {:induction false} ReadableExactly(m: Message, qs: seq<SignRequest>, reqFor: Option<Request>)
    requires qs != [] && (forall q <- qs :: Proper(q)) && Plan(m, qs, reqFor).Ok?
    ensures SetSignatures(m, qs, reqFor).1.Ok?
    ensures SignatureMap(SetSignatures(m, qs, reqFor).0).Ok? <==> Receptive(m, NamesOf(qs))
  {
    hide GrownBy, SetSignatures, Plan, Proper, Receptive, SignatureMap, Writable;
    SigningWrites(m, qs, reqFor);
    PlanNames(m, qs, reqFor);
    GrownReadable(m, Plan(m, qs, reqFor).value, SetSignatures(m, qs, reqFor).0);
  }

  // ---- Messages that signing does not make readable ----

  /** Any message with a field that does not parse or is blank. */
  lemma {:induction false} UnspelledFieldBlocks(m: Message, qs: seq<SignRequest>, reqFor: Option<Request>)
    requires !Spelled(GetAll(m.headers, SIGNATURE)) || !Spelled(GetAll(m.headers, SIGNATURE_INPUT))
    requires qs != [] && (forall q <- qs :: Proper(q)) && Plan(m, qs, reqFor).Ok?
    ensures SetSignatures(m, qs, reqFor).1.Ok? && SignatureMap(SetSignatures(m, qs, reqFor).0).Err?
  {
    hide SetSignatures, Plan, Proper, SignatureMap, Spelled;
    ReadableExactly(m, qs, reqFor);
  }

  /** Any message with a blank field. */
  lemma {:induction false} BlankFieldsBlock(m: Message, qs: seq<SignRequest>, reqFor: Option<Request>)
    requires OneBlank(GetAll(m.headers, SIGNATURE)) || OneBlank(GetAll(m.headers, SIGNATURE_INPUT))
    requires qs != [] && (forall q <- qs :: Proper(q)) && Plan(m, qs, reqFor).Ok?
    ensures SetSignatures(m, qs, reqFor).1.Ok? && SignatureMap(SetSignatures(m, qs, reqFor).0).Err?
  {
    hide SetSignatures, Plan, Proper, SignatureMap, Spelled, Legible;
    BlankExactly(GetAll(m.headers, SIGNATURE));
    BlankExactly(GetAll(m.headers, SIGNATURE_INPUT));
    UnspelledFieldBlocks(m, qs, reqFor);
  }

  /** One well-formed value spells its member. */
  lemma {:induction false} OneMember(vals: seq<string>, v: string, k: string, e: ListEntry)
    requires vals == [v] && ParseDictionary(v) == Some([(k, e)]) && VisibleValue(v)
    ensures Spelled(vals) && OldDictionary(vals) == [(k, e)]
  {
    hide ParseDictionary;
    SingleJoin(v);
  }

  lemma {:induction false} NoMember()
    ensures Spelled([]) && OldDictionary([]) == []
  {
    hide ParseDictionary, Join;
    NoDictionary();
  }

  /** A `signature-input` without a `signature`: signing repairs the message exactly when it writes
      that name. */
  lemma {:induction false} LoneInputExactly(m: Message, x: SignatureHeaders, qs: seq<SignRequest>,
                                            reqFor: Option<Request>)
    requires Writable(x) && GetAll(m.headers, SIGNATURE) == [] && GetAll(m.headers, SIGNATURE_INPUT) == [InputValue(x)]
    requires qs != [] && (forall q <- qs :: Proper(q)) && Plan(m, qs, reqFor).Ok?
    ensures SetSignatures(m, qs, reqFor).1.Ok?
    ensures SignatureMap(SetSignatures(m, qs, reqFor).0).Ok? <==> x.name in NamesOf(qs)
  {
    hide SetSignatures, Plan, Proper, SignatureMap, InputValue, InputEntry, Spelled, OldDictionary, ParseDictionary;
    hide WellFormedParams, ValidKey, ParamsFromEntry, VisibleValue;
    NoMember();
    WritableIsVisible(x);
    InputReads(x);
    OneMember(GetAll(m.headers, SIGNATURE_INPUT), InputValue(x), x.name, InputEntry(x));
    ReadableExactly(m, qs, reqFor);
    var i: Dictionary := [(x.name, InputEntry(x))];
    assert i[0].0 == x.name;
    assert forall k: string :: PairedKey([], i, k) <==> k != x.name;
  }

  /** Each field holds a member whose partner is missing: both have to be written. */
  lemma {:induction false} UnpairedExactly(m: Message, x: SignatureHeaders, y: SignatureHeaders,
                                           qs: seq<SignRequest>, reqFor: Option<Request>)
    requires Writable(x) && Writable(y) && x.name != y.name
    requires GetAll(m.headers, SIGNATURE) == [SignatureValue(x)] &&
      GetAll(m.headers, SIGNATURE_INPUT) == [InputValue(y)]
    requires qs != [] && (forall q <- qs :: Proper(q)) && Plan(m, qs, reqFor).Ok?
    ensures SetSignatures(m, qs, reqFor).1.Ok?
    ensures SignatureMap(SetSignatures(m, qs, reqFor).0).Ok? <==> x.name in NamesOf(qs) && y.name in NamesOf(qs)
  {
    hide SetSignatures, Plan, Proper, SignatureMap, InputValue, InputEntry, Spelled, OldDictionary, ParseDictionary;
    hide WellFormedParams, ValidKey, ParamsFromEntry, VisibleValue, SignatureValue, SignatureEntry;
    WritableIsVisible(x);
    WritableIsVisible(y);
    SignatureReads(x);
    InputReads(y);
    OneMember(GetAll(m.headers, SIGNATURE), SignatureValue(x), x.name, SignatureEntry(x));
    OneMember(GetAll(m.headers, SIGNATURE_INPUT), InputValue(y), y.name, InputEntry(y));
    ReadableExactly(m, qs, reqFor);
    var s: Dictionary, i: Dictionary := [(x.name, SignatureEntry(x))], [(y.name, InputEntry(y))];
    assert s[0].0 == x.name && i[0].0 == y.name;
    assert forall k: string :: PairedKey(s, i, k) <==> k != x.name && k != y.name;
  }

  // ---- One signature of a message ----

  /** Both fields hold the signature under its name, whatever else they hold. */
  predicate Holds(m: Message, h: SignatureHeaders) {
    var b, e := OM.Get(SignaturesOf(m), h.name), OM.Get(InputsOf(m), h.name);
    && b.Some? && IsBytes(b.value) && b.value.item.bare.bytes == h.signature
    && e.Some? && ParamsFromEntry(e.value) == Ok(h.params)
  }

  lemma {:induction false} HoldsLast(m: Message, hs: seq<SignatureHeaders>, n: Message, i: nat)
    requires FieldsSpelled(m) && (forall h <- hs :: Writable(h)) && GrownBy(m.headers, n.headers, hs)
    requires i < |hs| && forall j | i < j < |hs| :: hs[j].name != hs[i].name
    ensures Holds(n, hs[i])
  {
    hide Writable, GrownBy, FieldsSpelled, ParamsFromEntry, InputEntry, OM.PutAll, OM.Get, SignaturesOf, InputsOf;
    FieldsGrow(m, hs, n);
    OM.GetPutAllLast(SignaturesOf(m), SignaturePairs(hs), i);
    OM.GetPutAllLast(InputsOf(m), InputPairs(hs), i);
    SignatureEntryIsBytes(hs[i]);
    assert hs[i] in hs;
  }

  lemma {:induction false} HoldsOther(m: Message, hs: seq<SignatureHeaders>, n: Message, h: SignatureHeaders)
    requires FieldsSpelled(m) && (forall x <- hs :: Writable(x)) && GrownBy(m.headers, n.headers, hs)
    requires Holds(m, h) && h.name !in HeaderNames(hs)
    ensures Holds(n, h)
  {
    hide Writable, GrownBy, FieldsSpelled, ParamsFromEntry, IsBytes, InputEntry, SignatureEntry, OM.PutAll, OM.Get;
    hide SignaturesOf, InputsOf;
    FieldsGrow(m, hs, n);
    forall p <- SignaturePairs(hs) ensures p.0 != h.name {
      var i :| 0 <= i < |hs| && SignaturePairs(hs)[i] == p;
      assert HeaderNames(hs)[i] in HeaderNames(hs);
    }
    forall p <- InputPairs(hs) ensures p.0 != h.name {
      var i :| 0 <= i < |hs| && InputPairs(hs)[i] == p;
      assert HeaderNames(hs)[i] in HeaderNames(hs);
    }
    OM.GetPutAllOther(SignaturesOf(m), SignaturePairs(hs), h.name);
    OM.GetPutAllOther(InputsOf(m), InputPairs(hs), h.name);
  }

  /** A message that holds a signature has both fields. */
  lemma {:induction false} HoldsBoth(m: Message, h: SignatureHeaders)
    requires Holds(m, h)
    ensures HasSignature(m)
  {
    hide ParseDictionary, Join, ParamsFromEntry;
  }

  /** If the message can be read, the signatures it holds are those that are read. */
  lemma {:induction false} HoldsExactly(m: Message, h: SignatureHeaders)
    requires SignatureMap(m).Ok? && FieldsSpelled(m)
    ensures Holds(m, h) <==> (h.name, h) in SignatureMap(m).value
  {
    hide SignatureMap, FieldsSpelled, ParamsFromEntry, IsBytes, OM.Get, SignaturesOf, InputsOf, PairsOutside;
    if !HasSignature(m) { NoSignatureNoMap(m); }
    MapExactly(m);
    var s, i, r := SignaturesOf(m), InputsOf(m), SignatureMap(m).value;
    InputsUnique(m);
    if (h.name, h) in r {
      var j :| 0 <= j < |r| && r[j] == (h.name, h);
      assert PairedAt(s, i[j], r[j]);
      OM.GetAt(i, j);
    }
    if Holds(m, h) {
      var j :| 0 <= j < |i| && i[j] == (h.name, OM.Get(i, h.name).value);
      assert PairedAt(s, i[j], r[j]);
    }
  }

  lemma {:induction false} InputsUnique(m: Message)
    ensures OM.UniqueKeys(InputsOf(m))
  {
    DictionaryUnique(GetAll(m.headers, SIGNATURE_INPUT));
  }
}
