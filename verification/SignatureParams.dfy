/** Signature parameters: their printed form, its parser, and the mutable object that callers fill. */
module SignatureParams {
  import opened Wrappers
  import opened Text
  import opened StructuredFields
  import opened ComponentId
  import Uniqueness
  import Base64
  import RT = StructuredFieldsRoundTrip

  datatype SigParams = SigParams(
    created: Option<nat>,
    expires: Option<nat>,
    nonce: Option<string>,
    alg: Option<string>,
    keyid: Option<string>,
    tag: Option<string>,
    covered: seq<ComponentId>)

  function OnlyCovered(covered: seq<ComponentId>): SigParams {
    SigParams(None, None, None, None, None, None, covered)
  }

  // ---- Printing ----

  function IdTexts(ids: seq<ComponentId>): (r: seq<string>)
    ensures |r| == |ids| && forall i | 0 <= i < |ids| :: r[i] == PrintId(ids[i])
  {
    seq(|ids|, i requires 0 <= i < |ids| => PrintId(ids[i]))
  }

  function PrintIds(ids: seq<ComponentId>): string {
    Join(IdTexts(ids), " ")
  }

  function FormatTime(k: string, t: nat): string {
    ";" + k + "=" + PrintNat(t)
  }

  function FormatText(k: string, t: string): string {
    ";" + k + "=\"" + t + "\""
  }

  function TimeText(k: string, v: Option<nat>): string {
    if v.None? then "" else FormatTime(k, v.value)
  }

  function QuotedText(k: string, v: Option<string>): string {
    if v.None? then "" else FormatText(k, v.value)
  }

  /** Always in this order, whatever order the parameters were read in. */
  function PrintParams(p: SigParams): string {
    "(" + PrintIds(p.covered) + ")" + PrintRest(p)
  }

  function PrintRest(p: SigParams): string {
    TimeText("created", p.created) + TimeText("expires", p.expires) + QuotedText("nonce", p.nonce)
    + QuotedText("alg", p.alg) + QuotedText("keyid", p.keyid) + QuotedText("tag", p.tag)
  }

  // ---- Reading a structured-field entry ----

  function IdsFrom(items: seq<Item>): Result<seq<ComponentId>> {
    if items == [] then Ok([])
    else
      var id :- ParseId(SerItem(items[0]));
      var ids :- IdsFrom(items[1..]);
      Ok([id] + ids)
  }

  /** An integer that does not fit an unsigned timestamp panics; any other type reads as absent. */
  function TimeFrom(v: BareItem): Result<Option<nat>> {
    if !v.Integer? then Ok(None) else if v.number < 0 then Err(Panicked) else Ok(Some(v.number))
  }

  function TextFrom(v: BareItem): Option<string> {
    if v.String? then Some(v.str) else None
  }

  /** One parameter; unknown ones are ignored. */
  function Apply(p: SigParams, k: string, v: BareItem): Result<SigParams> {
    if k == "created" then
      var t :- TimeFrom(v);
      Ok(p.(created := t))
    else if k == "expires" then
      var t :- TimeFrom(v);
      Ok(p.(expires := t))
    else if k == "nonce" then Ok(p.(nonce := TextFrom(v)))
    else if k == "alg" then Ok(p.(alg := TextFrom(v)))
    else if k == "keyid" then Ok(p.(keyid := TextFrom(v)))
    else if k == "tag" then Ok(p.(tag := TextFrom(v)))
    else Ok(p)
  }

  function ApplyAll(p: SigParams, ps: Parameters): Result<SigParams>
    decreases ps
  {
    if ps == [] then Ok(p)
    else
      var q :- Apply(p, ps[0].0, ps[0].1);
      ApplyAll(q, ps[1..])
  }

  function ParamsFromEntry(e: ListEntry): Result<SigParams> {
    if !e.InnerEntry? then Err(InvalidSignatureParams)
    else
      var covered :- IdsFrom(e.inner.items);
      if !Uniqueness.UniqueIds(covered) then Err(InvalidSignatureParams)
      else ApplyAll(OnlyCovered(covered), e.inner.params)
  }

  function ParseParamsText(s: string): Result<SigParams> {
    var l :- OkOr(ParseList(s), ParseSfv);
    if |l| != 1 || !l[0].InnerEntry? then Err(InvalidSignatureParams) else ParamsFromEntry(l[0])
  }

  // ---- Well-formed parameters ----

  predicate PlainOption(t: Option<string>) {
    t.Some? ==> PlainText(t.value)
  }

  /** Every string prints as it is. */
  predicate PlainParams(p: SigParams) {
    && (forall id <- p.covered :: PlainId(id))
    && PlainOption(p.nonce) && PlainOption(p.alg) && PlainOption(p.keyid) && PlainOption(p.tag)
  }

  /** Structured-field integers have at most 15 digits. */
  predicate ShortTime(t: Option<nat>) {
    t.Some? ==> t.value <= MAX_INTEGER
  }

  ghost predicate WellFormedParams(p: SigParams) {
    && PlainParams(p)
    && (forall id <- p.covered :: ProperId(id))
    && Uniqueness.UniqueIds(p.covered)
    && ShortTime(p.created) && ShortTime(p.expires)
  }

  predicate PrintableOption(t: Option<string>) {
    t.Some? ==> PrintableText(t.value)
  }

  predicate PrintableTexts(p: SigParams) {
    PrintableOption(p.nonce) && PrintableOption(p.alg) && PrintableOption(p.keyid) && PrintableOption(p.tag)
  }

  predicate PrintableParams(p: SigParams) {
    PrintableTexts(p) && forall id <- p.covered :: PrintableId(id)
  }

  lemma {:induction false} PlainIsPrintable(p: SigParams)
    requires PlainParams(p)
    ensures PrintableParams(p)
  {
    hide PlainId, PrintableId;
    forall id <- p.covered ensures PrintableId(id) { PlainIdIsPrintable(id); }
  }

  /** Well formed up to quotation marks and backslashes in the four texts. */
  ghost predicate EscapableParams(p: SigParams) {
    && PrintableTexts(p)
    && (forall id <- p.covered :: WellFormedId(id))
    && Uniqueness.UniqueIds(p.covered)
    && ShortTime(p.created) && ShortTime(p.expires)
  }

  lemma {:induction false} WellFormedIsEscapable(p: SigParams)
    requires WellFormedParams(p)
    ensures EscapableParams(p)
  {
    hide PlainId, ProperId, SameId;
  }

  // ---- Printing is serialising ----

  function IdItems(ids: seq<ComponentId>): (r: seq<Item>)
    ensures |r| == |ids| && forall i | 0 <= i < |ids| :: r[i] == IdItem(ids[i])
  {
    seq(|ids|, i requires 0 <= i < |ids| => IdItem(ids[i]))
  }

  function TimePair(k: string, v: Option<nat>): Parameters {
    if v.None? then [] else [(k, Integer(v.value))]
  }

  function TextPair(k: string, v: Option<string>): Parameters {
    if v.None? then [] else [(k, String(v.value))]
  }

  function Pairs(p: SigParams): Parameters {
    TimePair("created", p.created) + TimePair("expires", p.expires) + TextPair("nonce", p.nonce)
    + TextPair("alg", p.alg) + TextPair("keyid", p.keyid) + TextPair("tag", p.tag)
  }

  function InnerOf(p: SigParams): InnerList {
    InnerList(IdItems(p.covered), Pairs(p))
  }

  lemma {:induction false} IdsPrint(ids: seq<ComponentId>)
    requires forall id <- ids :: PlainId(id)
    ensures SerItems(IdItems(ids)) == PrintIds(ids)
  {
    hide PrintId, SerItem, IdItem, PlainId;
    if ids != [] {
      assert ids[0] in ids;
      IdPrints(ids[0]);
      IdsPrint(ids[1..]);
      assert IdItems(ids)[1..] == IdItems(ids[1..]);
      assert IdTexts(ids)[1..] == IdTexts(ids[1..]);
    }
  }

  lemma {:induction false} SerAppend(a: Parameters, b: Parameters)
    ensures SerParams(a + b) == SerParams(a) + SerParams(b)
  {
    hide SerParam;
    if a == [] {
      assert a + b == b;
    } else {
      assert (a + b)[1..] == a[1..] + b;
      SerAppend(a[1..], b);
    }
  }

  lemma {:induction false} TimePrints(k: string, v: Option<nat>)
    ensures SerParams(TimePair(k, v)) == TimeText(k, v)
  {
    if v.Some? {
      var d := PrintNat(v.value);
      assert Sign(v.value) + d == d;
      assert SerParam((k, Integer(v.value))) == ";" + k + ("=" + d);
      assert TimePair(k, v)[1..] == [];
    }
  }

  lemma {:induction false} TextPrints(k: string, v: Option<string>)
    requires PlainOption(v)
    ensures SerParams(TextPair(k, v)) == QuotedText(k, v)
  {
    if v.Some? {
      QuotedPrints(k, v.value);
      assert TextPair(k, v)[1..] == [];
    }
  }

  lemma {:induction false} PairsPrint(p: SigParams)
    requires PlainParams(p)
    ensures SerParams(Pairs(p)) == PrintRest(p)
  {
    hide SerParams, TimePair, TextPair, TimeText, QuotedText;
    var a, b, c := TimePair("created", p.created), TimePair("expires", p.expires), TextPair("nonce", p.nonce);
    var d, e, f := TextPair("alg", p.alg), TextPair("keyid", p.keyid), TextPair("tag", p.tag);
    TimePrints("created", p.created);
    TimePrints("expires", p.expires);
    TextPrints("nonce", p.nonce);
    TextPrints("alg", p.alg);
    TextPrints("keyid", p.keyid);
    TextPrints("tag", p.tag);
    SerAppend(a, b);
    SerAppend(a + b, c);
    SerAppend(a + b + c, d);
    SerAppend(a + b + c + d, e);
    SerAppend(a + b + c + d + e, f);
  }

  /** The printed parameters are the serialisation of an inner list. */
  lemma {:induction false} ParamsPrintInner(p: SigParams)
    requires PlainParams(p)
    ensures PrintParams(p) == SerInner(InnerOf(p))
  {
    hide SerItems, SerParams, PrintIds, PrintRest, PlainId;
    IdsPrint(p.covered);
    PairsPrint(p);
  }

  // ---- The entry behind the printed form is valid ----

  function Rank(k: string): int {
    if k == "created" then 0 else if k == "expires" then 1 else if k == "nonce" then 2
    else if k == "alg" then 3 else if k == "keyid" then 4 else 5
  }

  ghost predicate Ranked(ps: Parameters, lo: int, hi: int) {
    && (forall q <- ps :: lo <= Rank(q.0) < hi && ValidKey(q.0) && ValidBare(q.1))
    && forall i, j | 0 <= i < j < |ps| :: Rank(ps[i].0) < Rank(ps[j].0)
  }

  lemma {:induction false} RankedAppend(a: Parameters, b: Parameters, lo: int, mid: int, hi: int)
    requires Ranked(a, lo, mid) && Ranked(b, mid, hi) && lo <= mid <= hi
    ensures Ranked(a + b, lo, hi)
  {
    hide Rank, ValidKey, ValidBare;
    var c := a + b;
    forall i, j | 0 <= i < j < |c| ensures Rank(c[i].0) < Rank(c[j].0) {
      if i < |a| { assert c[i] in a; } else { assert c[i] == b[i - |a|]; }
      if j >= |a| { assert c[j] in b && c[j] == b[j - |a|]; }
    }
  }

  lemma {:induction false} PairsValid(p: SigParams)
    requires PrintableTexts(p) && ShortTime(p.created) && ShortTime(p.expires)
    ensures ValidParams(Pairs(p))
  {
    hide Ranked, TimePair, TextPair, PrintableOption, ShortTime, ValidKey;
    var a, b, c := TimePair("created", p.created), TimePair("expires", p.expires), TextPair("nonce", p.nonce);
    var d, e, f := TextPair("alg", p.alg), TextPair("keyid", p.keyid), TextPair("tag", p.tag);
    OwnKeys();
    TimeRanked("created", p.created);
    TimeRanked("expires", p.expires);
    TextRanked("nonce", p.nonce);
    TextRanked("alg", p.alg);
    TextRanked("keyid", p.keyid);
    TextRanked("tag", p.tag);
    RankedAppend(a, b, 0, 1, 2);
    RankedAppend(a + b, c, 0, 2, 3);
    RankedAppend(a + b + c, d, 0, 3, 4);
    RankedAppend(a + b + c + d, e, 0, 4, 5);
    RankedAppend(a + b + c + d + e, f, 0, 5, 6);
    RankedValid(Pairs(p), 0, 6);
  }

  lemma {:induction false} TimeRanked(k: string, t: Option<nat>)
    requires ValidKey(k) && ShortTime(t)
    ensures Ranked(TimePair(k, t), Rank(k), Rank(k) + 1)
  {
    hide Rank, ValidKey;
  }

  lemma {:induction false} TextRanked(k: string, t: Option<string>)
    requires ValidKey(k) && PrintableOption(t)
    ensures Ranked(TextPair(k, t), Rank(k), Rank(k) + 1)
  {
    hide Rank, ValidKey;
  }

  lemma {:induction false} OwnKeys()
    ensures ValidKey("created") && ValidKey("expires") && ValidKey("nonce")
    ensures ValidKey("alg") && ValidKey("keyid") && ValidKey("tag")
  {
  }

  lemma {:induction false} RankedValid(ps: Parameters, lo: int, hi: int)
    requires Ranked(ps, lo, hi)
    ensures ValidParams(ps)
  {
    hide Rank, ValidKey, ValidBare;
  }

  lemma {:induction false} InnerValid(p: SigParams)
    requires EscapableParams(p)
    ensures ValidInner(InnerOf(p))
  {
    hide ValidItem, ValidParams, Pairs, IdItem, WellFormedId, PrintableTexts, SameId;
    PairsValid(p);
    forall i <- IdItems(p.covered) ensures ValidItem(i) {
      var n :| 0 <= n < |p.covered| && IdItems(p.covered)[n] == i;
      assert p.covered[n] in p.covered;
      IdItemIsValid(p.covered[n]);
    }
  }

  // ---- Reading back ----

  lemma {:induction false} IdsBack(ids: seq<ComponentId>)
    requires forall id <- ids :: WellFormedId(id)
    ensures IdsFrom(IdItems(ids)) == Ok(ids)
  {
    hide ParseId, SerItem, IdItem, WellFormedId;
    if ids != [] {
      assert ids[0] in ids;
      IdItemReads(ids[0]);
      IdsBack(ids[1..]);
      assert ids == [ids[0]] + ids[1..];
      assert IdItems(ids)[1..] == IdItems(ids[1..]);
    }
  }

  lemma {:induction false} IdItemReads(id: ComponentId)
    requires WellFormedId(id)
    ensures ParseId(SerItem(IdItem(id))) == Ok(id)
  {
    hide ParseId, SerItem;
    IdPrints(id);
    IdRoundTrip(id);
  }

  lemma {:induction false} ApplyAppend(p: SigParams, a: Parameters, b: Parameters)
    requires ApplyAll(p, a).Ok?
    ensures ApplyAll(p, a + b) == ApplyAll(ApplyAll(p, a).value, b)
    decreases a
  {
    hide Apply;
    if a == [] {
      assert a + b == b;
    } else {
      assert (a + b)[1..] == a[1..] + b;
      ApplyAppend(Apply(p, a[0].0, a[0].1).value, a[1..], b);
    }
  }

  lemma {:induction false} ApplyOne(p: SigParams, k: string, v: BareItem)
    ensures ApplyAll(p, [(k, v)]) == Apply(p, k, v)
  {
    hide Apply;
    var ps: Parameters := [(k, v)];
    assert ps[1..] == [];
  }

  lemma {:induction false} ApplyPieces(p: SigParams, q: SigParams)
    ensures q.created == None ==> ApplyAll(q, TimePair("created", p.created)) == Ok(q.(created := p.created))
    ensures q.expires == None ==> ApplyAll(q, TimePair("expires", p.expires)) == Ok(q.(expires := p.expires))
    ensures q.nonce == None ==> ApplyAll(q, TextPair("nonce", p.nonce)) == Ok(q.(nonce := p.nonce))
    ensures q.alg == None ==> ApplyAll(q, TextPair("alg", p.alg)) == Ok(q.(alg := p.alg))
    ensures q.keyid == None ==> ApplyAll(q, TextPair("keyid", p.keyid)) == Ok(q.(keyid := p.keyid))
    ensures q.tag == None ==> ApplyAll(q, TextPair("tag", p.tag)) == Ok(q.(tag := p.tag))
  {
    if p.created.Some? { ApplyOne(q, "created", Integer(p.created.value)); }
    if p.expires.Some? { ApplyOne(q, "expires", Integer(p.expires.value)); }
    if p.nonce.Some? { ApplyOne(q, "nonce", String(p.nonce.value)); }
    if p.alg.Some? { ApplyOne(q, "alg", String(p.alg.value)); }
    if p.keyid.Some? { ApplyOne(q, "keyid", String(p.keyid.value)); }
    if p.tag.Some? { ApplyOne(q, "tag", String(p.tag.value)); }
  }

  lemma {:induction false} PairsApply(p: SigParams)
    ensures ApplyAll(OnlyCovered(p.covered), Pairs(p)) == Ok(p)
  {
    hide ApplyAll, TimePair, TextPair;
    var a, b, c := TimePair("created", p.created), TimePair("expires", p.expires), TextPair("nonce", p.nonce);
    var d, e, f := TextPair("alg", p.alg), TextPair("keyid", p.keyid), TextPair("tag", p.tag);
    var q := OnlyCovered(p.covered);
    ApplyPieces(p, q);
    ApplyAppend(q, a, b);
    var q1 := q.(created := p.created);
    ApplyPieces(p, q1);
    ApplyAppend(q, a + b, c);
    var q2 := q1.(expires := p.expires);
    ApplyPieces(p, q2);
    ApplyAppend(q, a + b + c, d);
    var q3 := q2.(nonce := p.nonce);
    ApplyPieces(p, q3);
    ApplyAppend(q, a + b + c + d, e);
    var q4 := q3.(alg := p.alg);
    ApplyPieces(p, q4);
    ApplyAppend(q, a + b + c + d + e, f);
    ApplyPieces(p, q4.(keyid := p.keyid));
  }

  lemma {:induction false} EntryRoundTrip(p: SigParams)
    requires EscapableParams(p)
    ensures ParamsFromEntry(InnerEntry(InnerOf(p))) == Ok(p)
  {
    hide IdsFrom, ApplyAll, Pairs, SameId, WellFormedId, PrintableTexts;
    IdsBack(p.covered);
    PairsApply(p);
  }

  /** Serialised with escapes, parameters with any printable texts are read back. */
  lemma {:induction false} EscapedReadsBack(p: SigParams)
    requires EscapableParams(p)
    ensures ParseParamsText(SerInner(InnerOf(p))) == Ok(p)
  {
    hide ParseList, ParamsFromEntry, SerInner, ValidInner, InnerOf, EscapableParams;
    var e := InnerEntry(InnerOf(p));
    InnerValid(p);
    SingleList(e);
    RT.ListRoundTrip([e]);
    EntryRoundTrip(p);
  }

  /** Parsing printed parameters gives back the same parameters: the covered identifiers in their
      order, and each identifier's parameters in theirs. */
  lemma {:induction false} ParamsRoundTrip(p: SigParams)
    requires WellFormedParams(p)
    ensures ParseParamsText(PrintParams(p)) == Ok(p)
  {
    hide ParseParamsText, SerInner, InnerOf, PrintParams, EscapableParams;
    ParamsPrintInner(p);
    WellFormedIsEscapable(p);
    EscapedReadsBack(p);
  }

  lemma {:induction false} SingleList(e: ListEntry)
    requires ValidEntry(e)
    ensures ValidList([e]) && SerList([e]) == Some(SerEntry(e))
  {
    hide SerEntry, ValidEntry;
    assert AsMembers([e]) == [("", e)];
  }

  /** Parameters whose printed forms agree are the same. */
  lemma {:induction false} PrintParamsInjective(p: SigParams, q: SigParams)
    requires WellFormedParams(p) && WellFormedParams(q) && PrintParams(p) == PrintParams(q)
    ensures p == q
  {
    hide ParseParamsText, PrintParams, WellFormedParams;
    ParamsRoundTrip(p);
    ParamsRoundTrip(q);
  }

  // ---- Normalisation ----

  lemma {:induction false} IdsParsed(items: seq<Item>)
    requires IdsFrom(items).Ok? && forall id <- IdsFrom(items).value :: PlainId(id)
    ensures forall id <- IdsFrom(items).value :: ProperId(id)
  {
    hide ParseId, PlainId, ProperId;
    if items != [] {
      var id, ids := ParseId(SerItem(items[0])).value, IdsFrom(items[1..]).value;
      assert IdsFrom(items).value == [id] + ids;
      assert id in [id] + ids;
      assert forall x <- ids :: x in [id] + ids;
      ParsedId(SerItem(items[0]));
      WellFormedIsProper(id);
      IdsParsed(items[1..]);
    }
  }

  lemma {:induction false} WellFormedIsProper(id: ComponentId)
    requires WellFormedId(id)
    ensures ProperId(id)
  {
  }

  lemma {:induction false} TimesParsed(p: SigParams, ps: Parameters)
    requires forall q <- ps :: ValidBare(q.1)
    requires ApplyAll(p, ps).Ok? && ShortTime(p.created) && ShortTime(p.expires)
    ensures var r := ApplyAll(p, ps).value;
            ShortTime(r.created) && ShortTime(r.expires) && r.covered == p.covered
    decreases ps
  {
    if ps != [] {
      assert ps[0] in ps;
      assert forall q <- ps[1..] :: q in ps;
      TimesParsed(Apply(p, ps[0].0, ps[0].1).value, ps[1..]);
    }
  }

  lemma {:induction false} EntryParsed(e: ListEntry)
    requires ValidEntry(e) && ParamsFromEntry(e).Ok? && PlainParams(ParamsFromEntry(e).value)
    ensures WellFormedParams(ParamsFromEntry(e).value)
  {
    hide IdsFrom, ApplyAll, PlainId, ProperId, ValidItem;
    TimesParsed(OnlyCovered(IdsFrom(e.inner.items).value), e.inner.params);
    IdsParsed(e.inner.items);
  }

  /** Printing whatever was accepted is accepted again and reads as the same value, so printing
      after parsing is a normal form: bare tokens, reordered, repeated or unknown parameters and
      explicit flag values all disappear in one step. */
  lemma {:induction false} ParamsNormalise(s: string)
    requires ParseParamsText(s).Ok? && PlainParams(ParseParamsText(s).value)
    ensures var p := ParseParamsText(s).value;
            WellFormedParams(p) && ParseParamsText(PrintParams(p)) == Ok(p)
  {
    hide ParamsFromEntry, PrintParams, PlainParams, WellFormedParams;
    RT.ParsedList(s);
    var l := ParseList(s).value;
    assert l[0] in l;
    EntryParsed(l[0]);
    ParamsRoundTrip(ParseParamsText(s).value);
  }

  // ---- Where unescaped quoting goes wrong ----

  lemma {:induction false} BodyShrinks(s: string)
    requires ParseStringBody(s).Some?
    ensures |ParseStringBody(s).value.0| + |ParseStringBody(s).value.1| < |s|
    decreases |s|
  {
    if s[0] == '\\' {
      BodyShrinks(s[2..]);
    } else if s[0] != '"' {
      BodyShrinks(s[1..]);
    }
  }

  /** Text that is put between quotes without escaping is read back exactly when it is plain. */
  lemma {:induction false} QuotedReadsBack(s: string)
    ensures ParseStringBody(s + "\"") == Some((s, "")) <==> PlainText(s)
  {
    var t := s + "\"";
    if s == "" {
    } else if s[0] == '"' {
      assert s[0] in s;
    } else if s[0] == '\\' {
      assert s[0] in s;
      if |s| >= 2 && ParseStringBody(t[2..]).Some? {
        BodyShrinks(t[2..]);
      }
    } else {
      assert t[1..] == s[1..] + "\"";
      QuotedReadsBack(s[1..]);
      assert s == [s[0]] + s[1..];
      assert s[0] in s;
      assert PlainText(s) <==> IsPrintable(s[0]) && PlainText(s[1..]);
      if ParseStringBody(t).Some? {
        var r := ParseStringBody(t[1..]).value;
        assert ([s[0]] + r.0)[1..] == r.0;
      }
    }
  }

  /** A key id with a quotation mark prints like another key id and a tag, whatever the texts. */
  lemma {:induction false} UnescapedKeyid(p: SigParams, u: string, v: string)
    requires p.tag.None?
    ensures var a, b := p.(keyid := Some(u + "\";tag=\"" + v)), p.(keyid := Some(u), tag := Some(v));
            a != b && PrintParams(a) == PrintParams(b)
  {
    hide TimeText, PrintIds;
    assert FormatText("keyid", u + "\";tag=\"" + v) == FormatText("keyid", u) + FormatText("tag", v);
    assert QuotedText("tag", None) == "";
  }

  /** A random nonce needs no escaping. */
  lemma {:induction false} NonceIsPlain(b: seq<byte>)
    ensures PlainText(Base64.Encode(b))
  {
    Base64.EncodeAlphabet(b);
  }

  // ---- The mutable parameters object ----

  const DEFAULT_DURATION: nat := 300
  const U64_LIMIT: nat := 0x1_0000_0000_0000_0000

  class HttpSignatureParams {
    var created: Option<nat>
    var expires: Option<nat>
    var nonce: Option<string>
    var alg: Option<string>
    var keyid: Option<string>
    var tag: Option<string>
    var covered: seq<ComponentId>

    function Value(): SigParams
      reads this
    {
      SigParams(created, expires, nonce, alg, keyid, tag, covered)
    }

    constructor OfValue(p: SigParams)
      ensures Value() == p
    {
      created, expires, nonce, alg, keyid, tag, covered :=
        p.created, p.expires, p.nonce, p.alg, p.keyid, p.tag, p.covered;
    }

    /** `now` stands for the clock. */
    static method TryNew(covered: seq<ComponentId>, now: nat, hash: ((ComponentName, seq<string>)) -> nat)
      returns (r: Result<HttpSignatureParams>)
      requires forall id <- covered :: Uniqueness.Distinct(id.params)
      ensures r.Ok? <==> Uniqueness.UniqueIds(covered)
      ensures r.Ok? ==> fresh(r.value) && r.value.Value() == OnlyCovered(covered).(created := Some(now))
      ensures r.Ok? && now <= MAX_INTEGER && (forall id <- covered :: WellFormedId(id)) ==>
        WellFormedParams(r.value.Value())
      ensures r.Err? ==> r.error == InvalidSignatureParams
    {
      hide WellFormedId, PlainId, ProperId, SameId;
      var unique := Uniqueness.HasUniqueElements(covered, hash);
      if !unique {
        return Err(InvalidSignatureParams);
      }
      var p := new HttpSignatureParams.OfValue(OnlyCovered(covered).(created := Some(now)));
      assert forall id | WellFormedId(id) :: PlainId(id) && ProperId(id) by {
        forall id | WellFormedId(id) ensures PlainId(id) && ProperId(id) { WellFormedIsBoth(id); }
      }
      return Ok(p);
    }

    method SetCreated(t: nat)
      modifies this
      ensures Value() == old(Value()).(created := Some(t))
      ensures old(WellFormedParams(Value())) && t <= MAX_INTEGER ==> WellFormedParams(Value())
    {
      created := Some(t);
    }

    method SetExpires(t: nat)
      modifies this
      ensures Value() == old(Value()).(expires := Some(t))
      ensures old(WellFormedParams(Value())) && t <= MAX_INTEGER ==> WellFormedParams(Value())
    {
      expires := Some(t);
    }

    method SetNonce(n: string)
      modifies this
      ensures Value() == old(Value()).(nonce := Some(n))
      ensures old(WellFormedParams(Value())) && PlainText(n) ==> WellFormedParams(Value())
    {
      nonce := Some(n);
    }

    method SetAlg(a: string)
      modifies this
      ensures Value() == old(Value()).(alg := Some(a))
      ensures old(WellFormedParams(Value())) && PlainText(a) ==> WellFormedParams(Value())
    {
      alg := Some(a);
    }

    method SetKeyid(k: string)
      modifies this
      ensures Value() == old(Value()).(keyid := Some(k))
      ensures old(WellFormedParams(Value())) && PlainText(k) ==> WellFormedParams(Value())
    {
      keyid := Some(k);
    }

    method SetTag(t: string)
      modifies this
      ensures Value() == old(Value()).(tag := Some(t))
      ensures old(WellFormedParams(Value())) && PlainText(t) ==> WellFormedParams(Value())
    {
      tag := Some(t);
    }

    /** The key's id and algorithm name. */
    method SetKeyInfo(keyId: string, algName: string)
      modifies this
      ensures Value() == old(Value()).(keyid := Some(keyId), alg := Some(algName))
      ensures old(WellFormedParams(Value())) && PlainText(keyId) && PlainText(algName) ==> WellFormedParams(Value())
    {
      keyid := Some(keyId);
      alg := Some(algName);
    }

    /** `random` stands for the 32 bytes drawn from the random number generator. */
    method SetRandomNonce(random: seq<byte>)
      requires |random| == 32
      modifies this
      ensures Value() == old(Value()).(nonce := Some(Base64.Encode(random)))
      ensures old(WellFormedParams(Value())) ==> WellFormedParams(Value())
    {
      hide Base64.Encode;
      NonceIsPlain(random);
      nonce := Some(Base64.Encode(random));
    }

    /** Panics unless `created` is set.  A sum beyond 64 bits panics in builds with overflow checks
        (`checked`) and wraps in others. */
    method SetExpiresWithDuration(duration: Option<nat>, checked: bool) returns (r: Result<()>)
      requires created.Some? ==> created.value < U64_LIMIT
      requires duration.Some? ==> duration.value < U64_LIMIT
      modifies this
      ensures r.Err? <==> old(created).None? || (checked && old(created).value + duration.UnwrapOr(300) >= U64_LIMIT)
      ensures r.Err? ==> r.error == Panicked && Value() == old(Value())
      ensures r.Ok? ==>
        Value() == old(Value()).(expires := Some((old(created).value + duration.UnwrapOr(300)) % U64_LIMIT))
      ensures r.Ok? && old(WellFormedParams(Value())) ==>
        (WellFormedParams(Value()) <==> expires.value <= MAX_INTEGER)
    {
      if created.None? { return Err(Panicked); }
      var sum := created.value + duration.UnwrapOr(DEFAULT_DURATION);
      if checked && sum >= U64_LIMIT { return Err(Panicked); }
      expires := Some(sum % U64_LIMIT);
      return Ok(());
    }

    /** Builds the printed form piece by piece. */
    method Display() returns (s: string)
      ensures s == PrintParams(Value())
    {
      hide PrintId, FormatTime, FormatText, PrintIds;
      var joined := "";
      assert PrintIds(covered[..0]) == "" by { PrintNoIds(); }
      for i := 0 to |covered|
        invariant joined == PrintIds(covered[..i])
      {
        PrintIdsSnoc(covered[..i], covered[i]);
        assert covered[..i + 1] == covered[..i] + [covered[i]];
        joined := if joined == "" then PrintId(covered[i]) else joined + " " + PrintId(covered[i]);
      }
      assert covered[..|covered|] == covered;
      s := "(" + joined + ")";
      ghost var s0 := s;
      if created.Some? {
        s := s + FormatTime("created", created.value);
      }
      assert s == s0 + TimeText("created", created);
      ghost var s1 := s;
      if expires.Some? {
        s := s + FormatTime("expires", expires.value);
      }
      assert s == s1 + TimeText("expires", expires);
      ghost var s2 := s;
      if nonce.Some? {
        s := s + FormatText("nonce", nonce.value);
      }
      assert s == s2 + QuotedText("nonce", nonce);
      ghost var s3 := s;
      if alg.Some? {
        s := s + FormatText("alg", alg.value);
      }
      assert s == s3 + QuotedText("alg", alg);
      ghost var s4 := s;
      if keyid.Some? {
        s := s + FormatText("keyid", keyid.value);
      }
      assert s == s4 + QuotedText("keyid", keyid);
      ghost var s5 := s;
      if tag.Some? {
        s := s + FormatText("tag", tag.value);
      }
      assert s == s5 + QuotedText("tag", tag);
      ghost var s6 := s;
      PiecesJoin(s0, this.Value());
    }
  }

  lemma {:induction false} PrintNoIds()
    ensures PrintIds([]) == ""
  {
  }

  lemma {:induction false} PiecesJoin(head: string, p: SigParams)
    ensures head + TimeText("created", p.created) + TimeText("expires", p.expires) + QuotedText("nonce", p.nonce)
            + QuotedText("alg", p.alg) + QuotedText("keyid", p.keyid) + QuotedText("tag", p.tag)
         == head + PrintRest(p)
  {
    hide TimeText, QuotedText;
    var a, b, c := TimeText("created", p.created), TimeText("expires", p.expires), QuotedText("nonce", p.nonce);
    var d, e, f := QuotedText("alg", p.alg), QuotedText("keyid", p.keyid), QuotedText("tag", p.tag);
    assert head + a + b + c + d + e + f == head + (a + b + c + d + e + f);
  }

  lemma {:induction false} WellFormedIsBoth(id: ComponentId)
    requires WellFormedId(id)
    ensures PlainId(id) && ProperId(id)
  {
  }

  /** The separator of the printing loop is decided by whether anything was printed yet; since no
      identifier prints as the empty string, that is a plain join. */
  lemma {:induction false} PrintIdsSnoc(ids: seq<ComponentId>, id: ComponentId)
    ensures PrintIds(ids + [id]) == if PrintIds(ids) == "" then PrintId(id) else PrintIds(ids) + " " + PrintId(id)
  {
    hide PrintId;
    assert IdTexts(ids + [id]) == IdTexts(ids) + [PrintId(id)];
    JoinSnoc(IdTexts(ids), PrintId(id), " ");
    if ids != [] {
      IdTrimmed(ids[0]);
      assert Join(IdTexts(ids), " ")[0] == PrintId(ids[0])[0];
    }
  }

  /** Present and earlier than `now`. */
  predicate IsExpired(p: SigParams, now: nat) {
    p.expires.Some? && p.expires.value < now
  }

  /** Reads the parameters of an entry one after the other into an object. */
  method FromEntry(e: ListEntry) returns (r: Result<SigParams>)
    ensures r == ParamsFromEntry(e)
  {
    if !e.InnerEntry? {
      return Err(InvalidSignatureParams);
    }
    var ids := IdsFrom(e.inner.items);
    if ids.Err? {
      return Err(ids.error);
    }
    if !Uniqueness.UniqueIds(ids.value) {
      return Err(InvalidSignatureParams);
    }
    var params := OnlyCovered(ids.value);
    for i := 0 to |e.inner.params|
      invariant ApplyAll(params, e.inner.params[i..]) == ApplyAll(OnlyCovered(ids.value), e.inner.params)
    {
      hide Apply;
      var q := Apply(params, e.inner.params[i].0, e.inner.params[i].1);
      assert e.inner.params[i..][1..] == e.inner.params[i + 1..];
      if q.Err? {
        return Err(q.error);
      }
      params := q.value;
    }
    return Ok(params);
  }
}
