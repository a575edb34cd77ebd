/** Signatures over the signature fields themselves: which covered components keep their value when
    more signatures are written to the same message. */
module OwnFields {
  import opened Wrappers
  import opened Text
  import opened StructuredFields
  import opened ComponentId
  import opened Component
  import opened SignatureParams
  import opened SignatureBase
  import opened SignatureHeaders
  import opened Message
  import opened Signing
  import opened SignatureFields
  import FP = FieldParameters
  import RT = StructuredFieldsRoundTrip
  import OM = OrderedMap

  predicate IsSignatureField(name: string) {
    name == SIGNATURE || name == SIGNATURE_INPUT
  }

  predicate ReadsOwnField(id: ComponentId) {
    Req !in id.params && id.name.HttpField? && IsSignatureField(ToLower(id.name.field))
  }

  /** Selects one member of the field, whose key is none of these names. */
  predicate SelectsOther(id: ComponentId, names: seq<string>) {
    exists p <- id.params :: p.Key? && p.key !in names
  }

  /** Writing signatures under these names cannot change the identifier's value: it reads neither
      signature field of the message, or it selects a member under another name. */
  predicate Steady(id: ComponentId, names: seq<string>) {
    ReadsOwnField(id) ==> SelectsOther(id, names)
  }

  predicate Undisturbed(p: SigParams, names: seq<string>) {
    forall id <- p.covered :: Steady(id, names)
  }

  // ---- Selecting members among written values ----

  /** The value is a dictionary of one member under this name. */
  ghost predicate Spells(v: string, name: string) {
    ParseDictionary(v).Some? && |ParseDictionary(v).value| == 1 && ParseDictionary(v).value[0].0 == name
  }

  lemma {:induction false} SpelledKey(v: string, name: string, k: string)
    requires Spells(v, name)
    ensures KeyValueOf(v, k).Ok?
    ensures KeyValueOf(v, k).value.Some? <==> name == k
    ensures KeyValueOf(v, k).value.Some? ==> KeyValueOf(v, k).value.value != ""
  {
    hide ParseDictionary, SerEntry, ValidEntry;
    RT.ParsedDictionary(v);
    var d := ParseDictionary(v).value;
    assert d[0] in d;
    assert d == [d[0]];
    assert OM.Get(d, k) == if name == k then Some(d[0].1) else None;
    if name == k {
      RT.EntryRead(d[0].1, "");
      assert AsMembers([d[0].1]) == [("", d[0].1)];
    }
  }

  lemma {:induction false} SpelledKeys(vs: seq<string>, names: seq<string>, k: string)
    requires |vs| == |names| && forall i | 0 <= i < |vs| :: Spells(vs[i], names[i])
    ensures KeyValues(vs, k).Ok?
    ensures KeyValues(vs, k).value == [] <==> k !in names
    ensures forall x <- KeyValues(vs, k).value :: x != ""
  {
    hide KeyValueOf, Spells;
    if vs != [] {
      SpelledKey(vs[0], names[0], k);
      SpelledKeys(vs[1..], names[1..], k);
      assert names == [names[0]] + names[1..];
    }
  }

  lemma {:induction false} WrittenSpell(hs: seq<SignatureHeaders>)
    requires forall h <- hs :: Writable(h)
    ensures forall i | 0 <= i < |hs| :: Spells(InputValues(hs)[i], HeaderNames(hs)[i])
    ensures forall i | 0 <= i < |hs| :: Spells(SignatureValues(hs)[i], HeaderNames(hs)[i])
    ensures forall v <- InputValues(hs) :: VisibleValue(v) && v != ""
    ensures forall v <- SignatureValues(hs) :: VisibleValue(v) && v != ""
  {
    hide InputValue, SignatureValue, ParseDictionary, WellFormedParams, ValidKey, VisibleValue, ParamsFromEntry;
    hide InputEntry, SignatureEntry;
    forall i | 0 <= i < |hs|
      ensures Spells(InputValues(hs)[i], HeaderNames(hs)[i]) && Spells(SignatureValues(hs)[i], HeaderNames(hs)[i])
      ensures VisibleValue(InputValues(hs)[i]) && VisibleValue(SignatureValues(hs)[i])
      ensures InputValues(hs)[i] != "" && SignatureValues(hs)[i] != ""
    {
      assert hs[i] in hs;
      InputReads(hs[i]);
      SignatureReads(hs[i]);
      WritableIsVisible(hs[i]);
      NotEmptyValues(hs[i]);
    }
  }

  lemma {:induction false} NotEmptyValues(h: SignatureHeaders)
    ensures InputValue(h) != "" && SignatureValue(h) != ""
  {
  }

  // ---- One component ----

  /** What the identifier's parameters do to values. */
  lemma {:induction false} ProperMeans(id: ComponentId, vs: seq<string>)
    requires ProperId(id)
    ensures FP.Alike(ApplyParams(id.params, vs), FP.Meaning(id.params, vs))
  {
    hide ApplyParams, FP.Meaning, Allowed;
    FP.ParamsMean(id.params, vs);
  }

  lemma {:induction false} KeyChosen(id: ComponentId)
    requires ProperId(id)
    ensures forall names :: SelectsOther(id, names) <==>
      FP.KeyOf(id.params).Some? && FP.KeyOf(id.params).value !in names
  {
    hide Allowed, OneOfEachKind;
    forall p <- id.params | p.Key? ensures FP.KeyOf(id.params) == Some(p.key) {
      FP.KeyOfUnique(id.params, p.key);
    }
  }

  /** A written value is not blank, and `sf` turns it into text. */
  lemma {:induction false} SpelledSf(v: string, name: string)
    requires Spells(v, name)
    ensures !FP.Blank(v) && SfValue(v).Ok? && SfValue(v).value != ""
  {
    hide ParseMembers, ValidEntry, SerMembers, Run;
    RT.ParsedDictionary(v);
    var none: seq<(string, ListEntry)> := [];
    assert ParseMembers(false, "") == Some(none) && ParseMembers(true, "") == Some(none) by { NoMembers(); }
    if ParseList(v).Some? {
      RT.ParsedList(v);
      RT.ParsedMembers(false, Skip(v, IsSp));
      RT.ListRoundTrip(ParseList(v).value);
    } else {
      RT.DictionaryRoundTrip(ParseDictionary(v).value);
    }
  }

  lemma {:induction false} NoMembers()
    ensures ParseMembers(false, "") == Some([]) && ParseMembers(true, "") == Some([])
  {
  }

  lemma {:induction false} SpelledSfs(vs: seq<string>, names: seq<string>)
    requires |vs| == |names| && forall i | 0 <= i < |vs| :: Spells(vs[i], names[i])
    ensures (forall v <- vs :: !FP.Blank(v)) && SfValues(vs).Ok?
    ensures forall x <- SfValues(vs).value :: x != ""
  {
    hide SfValue, Spells, FP.Blank;
    if vs != [] {
      SpelledSf(vs[0], names[0]);
      SpelledSfs(vs[1..], names[1..]);
      assert vs == [vs[0]] + vs[1..];
    }
  }

  /** Written values behind others: what the parameters mean for all of them. */
  lemma {:induction false} MeaningGrows(ps: seq<ComponentParam>, vs: seq<string>, more: seq<string>, names: seq<string>)
    requires FP.Meaning(ps, vs).Ok?
    requires |more| == |names| && more != [] && forall i | 0 <= i < |more| :: Spells(more[i], names[i])
    requires forall v <- more :: v != ""
    ensures FP.Meaning(ps, vs + more).Ok?
    ensures var x, y := Join(FP.Meaning(ps, vs).value, ", "), Join(FP.Meaning(ps, vs + more).value, ", ");
            x == y <==> FP.KeyOf(ps).Some? && FP.KeyOf(ps).value !in names
  {
    hide KeyValues, SfValues, Spells, FP.Blank, FP.KeyOf, FP.SfLeads, Join;
    SpelledSfs(more, names);
    if FP.KeyOf(ps).Some? {
      var k := FP.KeyOf(ps).value;
      SpelledKeys(more, names, k);
      FP.KeyValuesAppend(vs, more, k);
      var before, added := KeyValues(vs, k).value, KeyValues(more, k).value;
      if added == [] {
        assert before + added == before;
      } else {
        JoinGrows(before, added);
      }
    } else if Sf in ps {
      FP.SfValuesAppend(vs, more);
      JoinGrows(SfValues(vs).value, SfValues(more).value);
    } else {
      JoinGrows(vs, more);
    }
  }

  /** Appending written values to a field leaves the identifier's value unchanged exactly when the
      identifier selects a member under a name that is not among them. */
  lemma {:induction false} AppendedExactly(id: ComponentId, vs: seq<string>, more: seq<string>, names: seq<string>)
    requires ProperId(id) && BuildField(id, vs).Ok?
    requires |more| == |names| && more != [] && forall i | 0 <= i < |more| :: Spells(more[i], names[i])
    requires forall v <- more :: v != ""
    ensures BuildField(id, vs + more).Ok?
    ensures BuildField(id, vs + more) == BuildField(id, vs) <==> SelectsOther(id, names)
  {
    hide ApplyParams, FP.Meaning, Spells, SelectsOther, ProperId, Join;
    ProperMeans(id, vs);
    ProperMeans(id, vs + more);
    KeyChosen(id);
    MeaningGrows(id.params, vs, more, names);
  }

  lemma {:induction false} GrownField(m: Message, n: Message, hs: seq<SignatureHeaders>, f: string)
    requires GrownBy(m.headers, n.headers, hs) && IsSignatureField(f)
    ensures GetAll(n.headers, f)
         == GetAll(m.headers, f) + (if f == SIGNATURE then SignatureValues(hs) else InputValues(hs))
  {
  }

  /** The exact condition, for any identifier that reads a signature field of its own message. */
  lemma {:induction false} OwnFieldExactly(m: Message, n: Message, id: ComponentId, hs: seq<SignatureHeaders>)
    requires ProperId(id) && ReadsOwnField(id) && Extract(m, id).Ok?
    requires hs != [] && (forall h <- hs :: Writable(h)) && GrownBy(m.headers, n.headers, hs)
    ensures Extract(n, id).Ok?
    ensures Extract(n, id) == Extract(m, id) <==> SelectsOther(id, HeaderNames(hs))
  {
    hide BuildField, GrownBy, Spells, SelectsOther, ProperId, Writable, VisibleValue, GetAll, ToLower;
    WrittenSpell(hs);
    var f := ToLower(id.name.field);
    GrownField(m, n, hs, f);
    var more := if f == SIGNATURE then SignatureValues(hs) else InputValues(hs);
    assert more != [];
    AppendedExactly(id, GetAll(m.headers, f), more, HeaderNames(hs));
  }

  /** `@signature-params` only looks at the first `signature-input` value, and fails when there is
      none; appending never changes it. */
  lemma {:induction false} DerivedSteady(m: Message, n: Message, id: ComponentId, hs: seq<SignatureHeaders>)
    requires id.name.Derived? && Extract(m, id).Ok?
    requires n.head == m.head && GrownBy(m.headers, n.headers, hs)
    ensures Extract(n, id) == Extract(m, id)
  {
    var d := id.name.derived;
    if d == SignatureParams {
      hide VisibleValue, Trim, SplitOnce, InputValue, SignatureValue;
      var vs := GetAll(m.headers, SIGNATURE_INPUT);
      assert Texts(vs) != [];
      assert GetAll(n.headers, SIGNATURE_INPUT)[0] == vs[0];
      assert Texts(GetAll(n.headers, SIGNATURE_INPUT))[0] == Texts(vs)[0];
      assert forall p <- id.params :: AllowedOnDerived(m, d, p) == AllowedOnDerived(n, d, p);
    } else {
      hide GrownBy, Extract;
      ExtractFrame(m, n, id);
    }
  }

  lemma {:induction false} SteadyExtract(m: Message, n: Message, id: ComponentId, hs: seq<SignatureHeaders>)
    requires ProperId(id) && Req !in id.params && Steady(id, HeaderNames(hs)) && Extract(m, id).Ok?
    requires (forall h <- hs :: Writable(h)) && n.head == m.head && GrownBy(m.headers, n.headers, hs)
    ensures Extract(n, id) == Extract(m, id)
  {
    hide Extract, ProperId, Writable, GrownBy, SelectsOther, ToLower;
    if id.name.Derived? {
      DerivedSteady(m, n, id, hs);
    } else if ReadsOwnField(id) {
      if hs == [] {
        NothingWritten(m, n, hs);
        ExtractFrame(m, n, id);
      } else {
        OwnFieldExactly(m, n, id, hs);
      }
    } else {
      OtherFieldKept(m, n, hs, ToLower(id.name.field));
      ExtractFrame(m, n, id);
    }
  }

  lemma {:induction false} NothingWritten(m: Message, n: Message, hs: seq<SignatureHeaders>)
    requires hs == [] && GrownBy(m.headers, n.headers, hs)
    ensures forall f: string :: GetAll(n.headers, f) == GetAll(m.headers, f)
  {
    assert InputValues(hs) == [] && SignatureValues(hs) == [];
  }

  lemma {:induction false} OtherFieldKept(m: Message, n: Message, hs: seq<SignatureHeaders>, f: string)
    requires GrownBy(m.headers, n.headers, hs) && !IsSignatureField(f)
    ensures GetAll(n.headers, f) == GetAll(m.headers, f)
  {
  }

  // ---- Whole bases ----

  lemma {:induction false} SteadyComponents(m: Message, n: Message, ids: seq<ComponentId>, reqFor: Option<Request>,
                                            hs: seq<SignatureHeaders>)
    requires forall id <- ids :: ProperId(id) && Steady(id, HeaderNames(hs))
    requires Components(m, ids, reqFor).Ok?
    requires (forall h <- hs :: Writable(h)) && n.head == m.head && GrownBy(m.headers, n.headers, hs)
    ensures Components(n, ids, reqFor) == Components(m, ids, reqFor)
    decreases ids
  {
    hide Extract, ProperId, Steady, Writable, GrownBy;
    if ids != [] {
      assert ids[0] in ids;
      if Req !in ids[0].params { SteadyExtract(m, n, ids[0], hs); }
      SteadyComponents(m, n, ids[1..], reqFor, hs);
    }
  }

  /** A component that reads a signature field of its own message and does not select a member under
      another name changes, and the base with it. */
  lemma {:induction false} DisturbedBase(m: Message, n: Message, p: SigParams, reqFor: Option<Request>,
                                         hs: seq<SignatureHeaders>, i: nat)
    requires i < |p.covered| && ProperId(p.covered[i]) && !Steady(p.covered[i], HeaderNames(hs))
    requires BuildBase(m, p, reqFor).Ok? && hs != [] && (forall h <- hs :: Writable(h))
    requires GrownBy(m.headers, n.headers, hs)
    ensures BuildBase(n, p, reqFor) != BuildBase(m, p, reqFor)
  {
    hide Components, ProperId, SelectsOther, Writable, GrownBy, SameId, Extract, ToLower;
    var id := p.covered[i];
    LineIsComponent(m, p.covered, reqFor, i);
    OwnFieldExactly(m, n, id, hs);
    if BuildBase(n, p, reqFor) == BuildBase(m, p, reqFor) {
      LineIsComponent(n, p.covered, reqFor, i);
    }
  }

  /** A base that could be built is rebuilt unchanged after signatures were written exactly if they do
      not disturb it. */
  lemma {:induction false} SteadyBase(m: Message, n: Message, p: SigParams, reqFor: Option<Request>,
                                      hs: seq<SignatureHeaders>)
    requires WellFormedParams(p) && BuildBase(m, p, reqFor).Ok? && hs != []
    requires (forall h <- hs :: Writable(h)) && n.head == m.head && GrownBy(m.headers, n.headers, hs)
    ensures BuildBase(n, p, reqFor) == BuildBase(m, p, reqFor) <==> Undisturbed(p, HeaderNames(hs))
  {
    hide BuildBase, Steady, ProperId, PlainId, Writable, GrownBy, SameId;
    if Undisturbed(p, HeaderNames(hs)) {
      UndisturbedBase(m, n, p, reqFor, hs);
    } else {
      var i :| 0 <= i < |p.covered| && !Steady(p.covered[i], HeaderNames(hs));
      DisturbedBase(m, n, p, reqFor, hs, i);
    }
  }

  /** A base that could be built is rebuilt unchanged after any signatures that do not disturb it. */
  lemma {:induction false} UndisturbedBase(m: Message, n: Message, p: SigParams, reqFor: Option<Request>,
                                           hs: seq<SignatureHeaders>)
    requires WellFormedParams(p) && Undisturbed(p, HeaderNames(hs)) && BuildBase(m, p, reqFor).Ok?
    requires (forall h <- hs :: Writable(h)) && n.head == m.head && GrownBy(m.headers, n.headers, hs)
    ensures BuildBase(n, p, reqFor) == BuildBase(m, p, reqFor)
  {
    hide Components, Steady, ProperId, PlainId, Writable, GrownBy, SameId;
    SteadyComponents(m, n, p.covered, reqFor, hs);
  }
}
