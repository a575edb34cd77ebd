/** The printed form of signature parameters, and exactly what text and entries are read as. */
module ParamsExactly {
  import opened Wrappers
  import opened Text
  import opened StructuredFields
  import opened ComponentId
  import opened SignatureParams
  import RT = StructuredFieldsRoundTrip
  import OM = OrderedMap

  // ---- Printing ----

  /** The number that decimal digits stand for, read from the left. */
  function ReadDigits(acc: nat, s: string): int
    decreases |s|
  {
    if s == "" then acc
    else if s[0] < '0' || s[0] > '9' then -1
    else ReadDigits(acc * 10 + (s[0] as int - '0' as int), s[1..])
  }

  lemma {:induction false} ReadSnoc(acc: nat, s: string, c: char)
    requires ReadDigits(acc, s) >= 0 && '0' <= c <= '9'
    ensures ReadDigits(acc, s + [c]) == ReadDigits(acc, s) * 10 + (c as int - '0' as int)
    decreases |s|
  {
    if s == "" {
      assert s + [c] == [c] && [c][1..] == "";
    } else {
      assert (s + [c])[1..] == s[1..] + [c];
      ReadSnoc(acc * 10 + (s[0] as int - '0' as int), s[1..], c);
    }
  }

  /** Times are printed in decimal, without leading zeros. */
  lemma {:induction false} DecimalDigits(n: nat)
    ensures ReadDigits(0, PrintNat(n)) == n
    ensures PrintNat(n)[0] == '0' ==> PrintNat(n) == "0"
  {
    if n < 10 {
      var s := PrintNat(n);
      assert s[1..] == "";
    } else {
      DecimalDigits(n / 10);
      ReadSnoc(0, PrintNat(n / 10), ('0' as int + n % 10) as char);
    }
  }

  /** The identifiers between parentheses, then the parameters that are there, in a fixed order. */
  lemma {:induction false} PrintedAs(p: SigParams, ids: seq<string>)
    requires |ids| == |p.covered| && forall i | 0 <= i < |ids| :: ids[i] == PrintId(p.covered[i])
    ensures PrintParams(p) == "(" + Join(ids, " ") + ")"
      + (if p.created.Some? then ";created=" + PrintNat(p.created.value) else "")
      + (if p.expires.Some? then ";expires=" + PrintNat(p.expires.value) else "")
      + (if p.nonce.Some? then ";nonce=\"" + p.nonce.value + "\"" else "")
      + (if p.alg.Some? then ";alg=\"" + p.alg.value + "\"" else "")
      + (if p.keyid.Some? then ";keyid=\"" + p.keyid.value + "\"" else "")
      + (if p.tag.Some? then ";tag=\"" + p.tag.value + "\"" else "")
  {
    hide PrintId, Join, PrintNat, PrintRest;
    assert IdTexts(p.covered) == ids;
    TimePiece("created", p.created);
    TimePiece("expires", p.expires);
    TextPiece("nonce", p.nonce);
    TextPiece("alg", p.alg);
    TextPiece("keyid", p.keyid);
    TextPiece("tag", p.tag);
    hide TimeText, QuotedText;
    PiecesJoin("(" + Join(ids, " ") + ")", p);
    assert ";" + "created" + "=" == ";created=" && ";" + "expires" + "=" == ";expires=";
    assert ";" + "nonce" + "=\"" == ";nonce=\"" && ";" + "alg" + "=\"" == ";alg=\"";
    assert ";" + "keyid" + "=\"" == ";keyid=\"" && ";" + "tag" + "=\"" == ";tag=\"";
  }

  lemma {:induction false} TimePiece(k: string, t: Option<nat>)
    ensures TimeText(k, t) == if t.Some? then ";" + k + "=" + PrintNat(t.value) else ""
  {
    hide PrintNat;
  }

  lemma {:induction false} TextPiece(k: string, t: Option<string>)
    ensures QuotedText(k, t) == if t.Some? then ";" + k + "=\"" + t.value + "\"" else ""
  {
  }

  // ---- Reading ----

  function TimeAt(ps: Parameters, k: string): Option<nat> {
    var v := OM.Get(ps, k);
    if v.Some? && v.value.Integer? && v.value.number >= 0 then Some(v.value.number) else None
  }

  function TextAt(ps: Parameters, k: string): Option<string> {
    var v := OM.Get(ps, k);
    if v.Some? && v.value.String? then Some(v.value.str) else None
  }

  /** A time that is a negative integer panics. */
  predicate BadTime(ps: Parameters) {
    exists q <- ps :: (q.0 == "created" || q.0 == "expires") && q.1.Integer? && q.1.number < 0
  }

  /** The parameters that an inner list stands for, its identifiers being given. */
  function Looked(ps: Parameters, ids: seq<ComponentId>): SigParams {
    SigParams(TimeAt(ps, "created"), TimeAt(ps, "expires"), TextAt(ps, "nonce"), TextAt(ps, "alg"),
              TextAt(ps, "keyid"), TextAt(ps, "tag"), ids)
  }

  lemma {:induction false} GetSnoc(ps: Parameters, q: (string, BareItem), k: string)
    requires OM.UniqueKeys(ps + [q])
    ensures OM.Get(ps + [q], k) == if q.0 == k then Some(q.1) else OM.Get(ps, k)
  {
    forall i | 0 <= i < |ps| ensures ps[i].0 != q.0 { assert (ps + [q])[i].0 != (ps + [q])[|ps|].0; }
    assert OM.Put(ps, q.0, q.1) == ps + [q];
    OM.GetPut(ps, q.0, q.1, k);
  }

  lemma {:induction false} ApplyLast(p: SigParams, ps: Parameters, q: (string, BareItem))
    ensures ApplyAll(p, ps + [q])
         == if ApplyAll(p, ps).Err? then ApplyAll(p, ps) else Apply(ApplyAll(p, ps).value, q.0, q.1)
    decreases ps
  {
    hide Apply;
    if ps == [] {
      assert ps + [q] == [q] && [q][1..] == [];
      var r := Apply(p, q.0, q.1);
      assert r.Ok? ==> ApplyAll(r.value, []) == r;
    } else {
      assert (ps + [q])[1..] == ps[1..] + [q];
      var r := Apply(p, ps[0].0, ps[0].1);
      if r.Ok? { ApplyLast(r.value, ps[1..], q); }
    }
  }

  lemma {:induction false} BadTimeSnoc(ps: Parameters, q: (string, BareItem))
    ensures BadTime(ps + [q]) <==>
      BadTime(ps) || ((q.0 == "created" || q.0 == "expires") && q.1.Integer? && q.1.number < 0)
  {
    assert forall x :: x in ps + [q] <==> x in ps || x == q;
  }

  /** Applying the parameters one after the other is looking each of them up. */
  lemma {:induction false} AppliedExactly(ids: seq<ComponentId>, ps: Parameters)
    requires OM.UniqueKeys(ps)
    ensures ApplyAll(OnlyCovered(ids), ps) == if BadTime(ps) then Err(Panicked) else Ok(Looked(ps, ids))
    decreases |ps|
  {
    hide OM.Get, BadTime;
    if ps == [] {
      NothingThere();
    } else {
      var init, q := ps[..|ps| - 1], ps[|ps| - 1];
      assert ps == init + [q];
      AppliedExactly(ids, init);
      ApplyLast(OnlyCovered(ids), init, q);
      BadTimeSnoc(init, q);
      hide ApplyAll;
      forall k ensures OM.Get(ps, k) == if q.0 == k then Some(q.1) else OM.Get(init, k) { GetSnoc(init, q, k); }
      if !((q.0 == "created" || q.0 == "expires") && q.1.Integer? && q.1.number < 0) {
        LookedSnoc(init, q, ids);
      } else {
        NegativePanics(Looked(init, ids), q);
      }
    }
  }

  lemma {:induction false} NothingThere()
    ensures !BadTime([]) && forall k :: OM.Get<BareItem>([], k) == None
  {
  }

  lemma {:induction false} NegativePanics(p: SigParams, q: (string, BareItem))
    requires (q.0 == "created" || q.0 == "expires") && q.1.Integer? && q.1.number < 0
    ensures Apply(p, q.0, q.1) == Err(Panicked)
  {
  }

  /** The parameters with one value changed. */
  lemma {:induction false} ApplyChanges(p: SigParams, k: string, v: BareItem)
    requires !((k == "created" || k == "expires") && v.Integer? && v.number < 0)
    ensures Apply(p, k, v) == Ok(SigParams(
      if k == "created" then TimeOf(v) else p.created, if k == "expires" then TimeOf(v) else p.expires,
      if k == "nonce" then TextOf(v) else p.nonce, if k == "alg" then TextOf(v) else p.alg,
      if k == "keyid" then TextOf(v) else p.keyid, if k == "tag" then TextOf(v) else p.tag, p.covered))
  {
  }

  function TimeOf(v: BareItem): Option<nat> {
    if v.Integer? && v.number >= 0 then Some(v.number) else None
  }

  function TextOf(v: BareItem): Option<string> {
    if v.String? then Some(v.str) else None
  }

  lemma {:induction false} LookedSnoc(ps: Parameters, q: (string, BareItem), ids: seq<ComponentId>)
    requires forall k :: OM.Get(ps + [q], k) == if q.0 == k then Some(q.1) else OM.Get(ps, k)
    requires !((q.0 == "created" || q.0 == "expires") && q.1.Integer? && q.1.number < 0)
    ensures Apply(Looked(ps, ids), q.0, q.1) == Ok(Looked(ps + [q], ids))
  {
    hide OM.Get, Apply;
    ApplyChanges(Looked(ps, ids), q.0, q.1);
    forall k
      ensures TimeAt(ps + [q], k) == if q.0 == k then TimeOf(q.1) else TimeAt(ps, k)
      ensures TextAt(ps + [q], k) == if q.0 == k then TextOf(q.1) else TextAt(ps, k)
    {
    }
    hide TimeAt, TextAt, TimeOf, TextOf;
  }

  lemma {:induction false} IdsExactly(items: seq<Item>)
    ensures forall i | 0 <= i < |items| ::
      ParseId(SerItem(items[i])).Err? && (forall j | 0 <= j < i :: ParseId(SerItem(items[j])).Ok?) ==>
        IdsFrom(items) == Err(ParseId(SerItem(items[i])).error)
    ensures forall ids: seq<ComponentId> ::
      |ids| == |items| && (forall i | 0 <= i < |ids| :: ParseId(SerItem(items[i])) == Ok(ids[i])) ==>
        IdsFrom(items) == Ok(ids)
  {
    hide ParseId, SerItem;
    if items != [] {
      var rest := items[1..];
      IdsExactly(rest);
      forall i | 0 <= i < |items| && ParseId(SerItem(items[i])).Err?
                 && forall j | 0 <= j < i :: ParseId(SerItem(items[j])).Ok?
        ensures IdsFrom(items) == Err(ParseId(SerItem(items[i])).error)
      {
        if i > 0 {
          assert ParseId(SerItem(items[0])).Ok?;
          assert rest[i - 1] == items[i];
          forall j | 0 <= j < i - 1 ensures ParseId(SerItem(rest[j])).Ok? { assert rest[j] == items[j + 1]; }
        }
      }
      forall ids: seq<ComponentId> | |ids| == |items|
                                     && forall i | 0 <= i < |ids| :: ParseId(SerItem(items[i])) == Ok(ids[i])
        ensures IdsFrom(items) == Ok(ids)
      {
        forall i | 0 <= i < |ids| - 1 ensures ParseId(SerItem(rest[i])) == Ok(ids[1..][i]) {
          assert rest[i] == items[i + 1];
        }
        assert ids == [ids[0]] + ids[1..];
      }
    }
  }

  /** An inner list is read as follows.  The first item that is no identifier decides the error.  If two
      identifiers are equal up to the order of their parameters, the list is refused.  Otherwise each
      parameter is looked up: times among the integers, texts among the strings, anything else as
      absent. */
  lemma {:induction false} EntryExactly(l: InnerList)
    requires OM.UniqueKeys(l.params)
    ensures var r := ParamsFromEntry(InnerEntry(l));
            && (forall i | 0 <= i < |l.items| ::
                  ParseId(SerItem(l.items[i])).Err? && (forall j | 0 <= j < i :: ParseId(SerItem(l.items[j])).Ok?) ==>
                    r == Err(ParseId(SerItem(l.items[i])).error))
            && forall ids: seq<ComponentId> ::
                 |ids| == |l.items| && (forall i | 0 <= i < |ids| :: ParseId(SerItem(l.items[i])) == Ok(ids[i])) ==>
                   r == if exists i, j | 0 <= i < j < |ids| :: SameId(ids[i], ids[j]) then Err(InvalidSignatureParams)
                        else if BadTime(l.params) then Err(Panicked)
                        else Ok(Looked(l.params, ids))
  {
    hide ParseId, SerItem, IdsFrom, ApplyAll, SameId, Looked, BadTime;
    IdsExactly(l.items);
    forall ids: seq<ComponentId> { AppliedExactly(ids, l.params); }
  }

  /** Text is read as parameters only if it is a list of exactly one inner list, without repeated keys
      among its parameters because the last one counts. */
  lemma {:induction false} TextExactly(s: string)
    ensures ParseList(s).None? ==> ParseParamsText(s) == Err(ParseSfv)
    ensures ParseList(s).Some? && (|ParseList(s).value| != 1 || ParseList(s).value[0].ItemEntry?) ==>
      ParseParamsText(s) == Err(InvalidSignatureParams)
    ensures ParseList(s).Some? && |ParseList(s).value| == 1 && ParseList(s).value[0].InnerEntry? ==>
      && ParseParamsText(s) == ParamsFromEntry(ParseList(s).value[0])
      && OM.UniqueKeys(ParseList(s).value[0].inner.params)
    ensures forall i :: ParamsFromEntry(ItemEntry(i)) == Err(InvalidSignatureParams)
  {
    hide ParseList, ValidItem;
    if ParseList(s).Some? && |ParseList(s).value| == 1 {
      RT.ParsedList(s);
      var e := ParseList(s).value[0];
      assert e in ParseList(s).value && ValidEntry(e);
    }
  }
}
