/** The signature base: an ordered list of component lines and a final parameters line. */
module SignatureBase {
  import opened Wrappers
  import opened Text
  import opened StructuredFields
  import opened ComponentId
  import opened Component
  import opened SignatureParams
  import Utf8

  datatype SignatureBase = SignatureBase(lines: seq<Component>, params: SigParams)

  /** The lines must be those of the covered identifiers, one by one. */
  function TryNew(lines: seq<Component>, params: SigParams): (r: Result<SignatureBase>)
    ensures r.Ok? ==> r.value == SignatureBase(lines, params)
  {
    if |lines| != |params.covered| then Err(BuildSignatureBase)
    else if !(forall i | 0 <= i < |lines| :: SameId(lines[i].id, params.covered[i])) then Err(BuildSignatureBase)
    else Ok(SignatureBase(lines, params))
  }

  const PARAMS_PREFIX: string := "\"@signature-params\": "

  function PrintLines(lines: seq<Component>): string {
    if lines == [] then "" else PrintComponent(lines[0]) + "\n" + PrintLines(lines[1..])
  }

  function PrintBase(b: SignatureBase): string {
    PrintLines(b.lines) + (PARAMS_PREFIX + PrintParams(b.params))
  }

  /** The bytes that are signed. */
  function AsBytes(b: SignatureBase): seq<byte> {
    Utf8.Encode(PrintBase(b))
  }

  lemma {:induction false} PrintLinesSnoc(lines: seq<Component>, last: Component)
    ensures PrintLines(lines + [last]) == PrintLines(lines) + (PrintComponent(last) + "\n")
  {
    hide PrintComponent;
    if lines == [] {
      assert [last][1..] == [];
      assert lines + [last] == [last];
    } else {
      assert (lines + [last])[1..] == lines[1..] + [last];
      PrintLinesSnoc(lines[1..], last);
    }
  }

  /** One line for each component, `identifier: value`, and a last one for the parameters. */
  ghost predicate LinesOf(b: SignatureBase, texts: seq<string>) {
    && |texts| == |b.lines| + 1
    && (forall i | 0 <= i < |b.lines| :: texts[i] == PrintId(b.lines[i].id) + ": " + b.lines[i].value.val)
    && texts[|b.lines|] == "\"@signature-params\": " + PrintParams(b.params)
  }

  /** Grows the text line by line. */
  method Display(b: SignatureBase) returns (s: string)
    ensures s == PrintBase(b)
    ensures forall texts | LinesOf(b, texts) :: s == Join(texts, "\n")
  {
    hide PrintComponent, PrintParams, PrintId, Join;
    s := "";
    for i := 0 to |b.lines|
      invariant s == PrintLines(b.lines[..i])
    {
      PrintLinesSnoc(b.lines[..i], b.lines[i]);
      assert b.lines[..i + 1] == b.lines[..i] + [b.lines[i]];
      ghost var before := s;
      s := s + PrintComponent(b.lines[i]);
      s := s + "\n";
      assert s == before + (PrintComponent(b.lines[i]) + "\n");
    }
    assert b.lines[..|b.lines|] == b.lines;
    s := s + (PARAMS_PREFIX + PrintParams(b.params));
    forall texts | LinesOf(b, texts) ensures s == Join(texts, "\n") { LinesJoin(b, texts); }
  }

  // ---- Splitting a base into its lines ----

  function LineTexts(b: SignatureBase): (r: seq<string>)
    ensures |r| == |b.lines| + 1
    ensures forall i | 0 <= i < |b.lines| :: r[i] == PrintComponent(b.lines[i])
    ensures r[|b.lines|] == PARAMS_PREFIX + PrintParams(b.params)
  {
    seq(|b.lines| + 1, i requires 0 <= i <= |b.lines| =>
      if i < |b.lines| then PrintComponent(b.lines[i]) else PARAMS_PREFIX + PrintParams(b.params))
  }

  lemma {:induction false} BaseIsJoin(b: SignatureBase)
    ensures PrintBase(b) == Join(LineTexts(b), "\n")
    decreases |b.lines|
  {
    hide PrintComponent, PrintParams;
    if b.lines == [] {
      assert LineTexts(b) == [PARAMS_PREFIX + PrintParams(b.params)];
    } else {
      var c := b.(lines := b.lines[1..]);
      BaseIsJoin(c);
      assert LineTexts(b)[1..] == LineTexts(c);
      assert PrintBase(b) == PrintComponent(b.lines[0]) + "\n" + PrintBase(c);
    }
  }

  lemma {:induction false} LinesJoin(b: SignatureBase, texts: seq<string>)
    requires LinesOf(b, texts)
    ensures PrintBase(b) == Join(texts, "\n")
  {
    hide PrintId, PrintParams, Join, PrintBase;
    assert LineTexts(b) == texts;
    BaseIsJoin(b);
  }

  /** Nothing that is printed holds a newline. */
  ghost predicate NoNewline(b: SignatureBase) {
    && (forall c <- b.lines :: '\n' !in PrintId(c.id) && '\n' !in Render(c.value))
    && '\n' !in PrintParams(b.params)
  }

  lemma {:induction false} LineOf(c: Component)
    requires '\n' !in PrintId(c.id) && '\n' !in Render(c.value)
    ensures '\n' !in PrintComponent(c)
  {
    hide PrintId;
  }

  lemma {:induction false} SplitBase(b: SignatureBase)
    requires NoNewline(b)
    ensures Split(PrintBase(b), '\n') == LineTexts(b)
  {
    hide PrintComponent, PrintParams, PrintId, Split, Join;
    var texts := LineTexts(b);
    forall t <- texts ensures '\n' !in t {
      var i :| 0 <= i < |texts| && texts[i] == t;
      if i < |b.lines| {
        assert b.lines[i] in b.lines;
        LineOf(b.lines[i]);
      } else {
        assert '\n' !in PARAMS_PREFIX;
      }
    }
    BaseIsJoin(b);
    SplitJoin(texts, '\n');
  }

  lemma {:induction false} SameTexts(a: SignatureBase, b: SignatureBase)
    requires NoNewline(a) && NoNewline(b) && AsBytes(a) == AsBytes(b)
    ensures |a.lines| == |b.lines| && PrintParams(a.params) == PrintParams(b.params)
    ensures forall i | 0 <= i < |a.lines| :: PrintComponent(a.lines[i]) == PrintComponent(b.lines[i])
  {
    hide PrintComponent, PrintParams, PrintBase, Split, NoNewline;
    Utf8.EncodeInjective(PrintBase(a), PrintBase(b));
    SplitBase(a);
    SplitBase(b);
    var x, y := LineTexts(a), LineTexts(b);
    assert x == y;
    var n := |a.lines|;
    assert x[n][|PARAMS_PREFIX|..] == PrintParams(a.params);
    assert y[n][|PARAMS_PREFIX|..] == PrintParams(b.params);
    forall i | 0 <= i < n ensures PrintComponent(a.lines[i]) == PrintComponent(b.lines[i]) {
      assert x[i] == y[i];
    }
  }

  // ---- Injectivity ----

  /** The lines carry exactly the covered identifiers. */
  ghost predicate Exact(b: SignatureBase) {
    |b.lines| == |b.params.covered| && forall i | 0 <= i < |b.lines| :: b.lines[i].id == b.params.covered[i]
  }

  /** Texts that agree once `": "` and a value are put behind them, and once they are listed between
      parentheses, are equal: at the end of the shorter one the first asks for a colon and the
      second for a space or a closing parenthesis. */
  lemma {:induction false} TextsAgree(a: seq<string>, b: seq<string>, va: seq<string>, vb: seq<string>, ra: string,
                                      rb: string)
    requires |a| == |b| == |va| == |vb|
    requires forall i | 0 <= i < |a| :: a[i] + ": " + va[i] == b[i] + ": " + vb[i]
    requires Join(a, " ") + (")" + ra) == Join(b, " ") + (")" + rb)
    ensures a == b
    decreases |a|
  {
    if a != [] {
      hide Join, After;
      var t, u := After(a, ra), After(b, rb);
      JoinHead(a, ra);
      JoinHead(b, rb);
      HeadsAgree(a[0], b[0], va[0], vb[0], t, u);
      assert t == (a[0] + t)[|a[0]|..] && u == (b[0] + u)[|b[0]|..];
      if |a| > 1 {
        AfterTail(a, ra);
        AfterTail(b, rb);
        TextsAgree(a[1..], b[1..], va[1..], vb[1..], ra, rb);
      }
      assert a == [a[0]] + a[1..] && b == [b[0]] + b[1..];
    }
  }

  lemma {:induction false} AfterTail(a: seq<string>, r: string)
    requires |a| > 1
    ensures After(a, r)[1..] == Join(a[1..], " ") + (")" + r)
  {
    hide Join;
  }

  function After(a: seq<string>, r: string): (t: string)
    requires a != []
    ensures t != "" && (t[0] == ' ' || t[0] == ')')
  {
    if |a| == 1 then ")" + r else " " + (Join(a[1..], " ") + (")" + r))
  }

  lemma {:induction false} JoinHead(a: seq<string>, r: string)
    requires a != []
    ensures Join(a, " ") + (")" + r) == a[0] + After(a, r)
  {
  }

  lemma {:induction false} HeadsAgree(x: string, y: string, v: string, w: string, t: string, u: string)
    requires x + ": " + v == y + ": " + w
    requires x + t == y + u
    requires t != "" && (t[0] == ' ' || t[0] == ')')
    requires u != "" && (u[0] == ' ' || u[0] == ')')
    ensures x == y
  {
    NotShorter(x, y, v, w, t, u);
    NotShorter(y, x, w, v, u, t);
    assert x == (x + t)[..|x|] && y == (y + u)[..|x|];
  }

  lemma {:induction false} NotShorter(x: string, y: string, v: string, w: string, t: string, u: string)
    requires x + ": " + v == y + ": " + w
    requires x + t == y + u
    requires t != "" && (t[0] == ' ' || t[0] == ')')
    ensures |x| >= |y|
  {
    var p, q := x + t, x + ": " + v;
    assert p[..|y|] == y && q[..|y|] == y;
    assert p[|x|] == t[0] && q[|x|] == ':';
  }

  /** The signature base is injective.  Distinct bases, whatever strings they hold, have distinct
      bytes, as long as nothing they print holds a newline. */
  lemma {:induction false} BaseInjective(a: SignatureBase, b: SignatureBase)
    requires Exact(a) && Exact(b) && NoNewline(a) && NoNewline(b)
    requires AsBytes(a) == AsBytes(b)
    ensures PrintParams(a.params) == PrintParams(b.params) && |a.lines| == |b.lines|
    ensures forall i | 0 <= i < |a.lines| ::
      PrintId(a.lines[i].id) == PrintId(b.lines[i].id) && Render(a.lines[i].value) == Render(b.lines[i].value)
  {
    hide PrintId, PrintRest, NoNewline, AsBytes, Join;
    SameTexts(a, b);
    var n := |a.lines|;
    var x, y := IdTexts(a.params.covered), IdTexts(b.params.covered);
    var v, w := Values(a), Values(b);
    forall i | 0 <= i < n ensures x[i] + ": " + v[i] == y[i] + ": " + w[i] {
      assert PrintComponent(a.lines[i]) == PrintComponent(b.lines[i]);
    }
    var p, q := PrintParams(a.params), PrintParams(b.params);
    assert p[1..] == PrintIds(a.params.covered) + (")" + PrintRest(a.params));
    assert q[1..] == PrintIds(b.params.covered) + (")" + PrintRest(b.params));
    TextsAgree(x, y, v, w, PrintRest(a.params), PrintRest(b.params));
    forall i | 0 <= i < n
      ensures PrintId(a.lines[i].id) == PrintId(b.lines[i].id) && Render(a.lines[i].value) == Render(b.lines[i].value)
    {
      assert x[i] == y[i];
      assert v[i] == (x[i] + ": " + v[i])[|x[i]| + 2..];
      assert w[i] == (y[i] + ": " + w[i])[|y[i]| + 2..];
    }
  }

  function Values(b: SignatureBase): (r: seq<string>)
    ensures |r| == |b.lines| && forall i | 0 <= i < |b.lines| :: r[i] == Render(b.lines[i].value)
  {
    seq(|b.lines|, i requires 0 <= i < |b.lines| => Render(b.lines[i].value))
  }

  ghost predicate WellFormedBase(b: SignatureBase) {
    && WellFormedParams(b.params)
    && (forall c <- b.lines :: WellFormedId(c.id) && '\n' !in Render(c.value))
  }

  lemma {:induction false} NoBreakInJoin(texts: seq<string>, sep: string)
    requires '\n' !in sep && forall t <- texts :: '\n' !in t
    ensures '\n' !in Join(texts, sep)
  {
    if |texts| > 1 {
      assert texts[0] in texts;
      NoBreakInJoin(texts[1..], sep);
    }
  }

  lemma {:induction false} ParamTextNoBreak(p: ComponentParam)
    requires PrintableParam(p)
    ensures '\n' !in ParamText(p)
  {
  }

  lemma {:induction false} IdNoBreak(id: ComponentId)
    requires PrintableId(id)
    ensures '\n' !in PrintId(id)
  {
    hide ParamText, PrintableParam, Join;
    forall t <- ParamTexts(id.params) ensures '\n' !in t {
      var i :| 0 <= i < |id.params| && ParamTexts(id.params)[i] == t;
      assert id.params[i] in id.params;
      ParamTextNoBreak(id.params[i]);
    }
    NoBreakInJoin(ParamTexts(id.params), ";");
    assert '\n' !in NameText(id.name);
  }

  lemma {:induction false} RestNoBreak(p: SigParams)
    requires PrintableTexts(p)
    ensures '\n' !in PrintRest(p)
  {
    PieceNoBreak("created", p.created, "nonce", p.nonce);
    PieceNoBreak("expires", p.expires, "alg", p.alg);
    PieceNoBreak("expires", p.expires, "keyid", p.keyid);
    PieceNoBreak("expires", p.expires, "tag", p.tag);
    hide TimeText, QuotedText;
  }

  lemma {:induction false} PieceNoBreak(k: string, t: Option<nat>, j: string, v: Option<string>)
    requires '\n' !in k && '\n' !in j && PrintableOption(v)
    ensures '\n' !in TimeText(k, t) && '\n' !in QuotedText(j, v)
  {
  }

  lemma {:induction false} ParamsNoBreak(p: SigParams)
    requires PrintableParams(p)
    ensures '\n' !in PrintParams(p)
  {
    hide PrintId, PrintRest, PrintableId, PrintableTexts, Join;
    RestNoBreak(p);
    forall t <- IdTexts(p.covered) ensures '\n' !in t {
      var i :| 0 <= i < |p.covered| && IdTexts(p.covered)[i] == t;
      assert p.covered[i] in p.covered;
      IdNoBreak(p.covered[i]);
    }
    NoBreakInJoin(IdTexts(p.covered), " ");
  }

  lemma {:induction false} WellFormedNoNewline(b: SignatureBase)
    requires WellFormedBase(b)
    ensures NoNewline(b)
  {
    hide PrintId, PrintParams, ProperId, PlainId, PrintableId, PrintableTexts, SameId;
    PlainIsPrintable(b.params);
    ParamsNoBreak(b.params);
    forall c <- b.lines ensures '\n' !in PrintId(c.id) && '\n' !in Render(c.value) {
      assert WellFormedId(c.id);
      WellFormedIsBoth(c.id);
      PlainIdIsPrintable(c.id);
      IdNoBreak(c.id);
    }
  }

  /** Well-formed bases are determined by their bytes down to every identifier, value and parameter,
      also when the lines order an identifier's parameters otherwise than the covered list. */
  lemma {:induction false} WellFormedBaseInjective(a: SignatureBase, b: SignatureBase)
    requires WellFormedBase(a) && WellFormedBase(b) && AsBytes(a) == AsBytes(b)
    ensures a.params == b.params && |a.lines| == |b.lines|
    ensures forall i | 0 <= i < |a.lines| ::
      a.lines[i].id == b.lines[i].id && Render(a.lines[i].value) == Render(b.lines[i].value)
  {
    hide PrintId, PrintParams, NoNewline, AsBytes, WellFormedId, WellFormedParams;
    WellFormedNoNewline(a);
    WellFormedNoNewline(b);
    SameTexts(a, b);
    PrintParamsInjective(a.params, b.params);
    forall i | 0 <= i < |a.lines|
      ensures a.lines[i].id == b.lines[i].id && Render(a.lines[i].value) == Render(b.lines[i].value)
    {
      var c, d := a.lines[i], b.lines[i];
      assert c in a.lines && d in b.lines;
      assert PrintComponent(c) == PrintId(c.id) + ":" + (" " + Render(c.value));
      assert PrintComponent(d) == PrintId(d.id) + ":" + (" " + Render(d.value));
      PrefixFree(c.id, d.id, " " + Render(c.value), " " + Render(d.value));
      assert (" " + Render(c.value))[1..] == Render(c.value);
      assert (" " + Render(d.value))[1..] == Render(d.value);
    }
  }

  /** Without the newline condition the bytes do not determine the values. */
  lemma {:induction false} NewlineAmbiguity(x: ComponentId, y: ComponentId, u: string, v: string, w: string)
    ensures var step := "\n" + PrintId(y) + ": ";
            var p := OnlyCovered([x, y]);
            var a := SignatureBase([Component(x, Plain(u + step + v)), Component(y, Plain(w))], p);
            var b := SignatureBase([Component(x, Plain(u)), Component(y, Plain(v + step + w))], p);
            Exact(a) && Exact(b) && AsBytes(a) == AsBytes(b)
            && Render(a.lines[0].value) != Render(b.lines[0].value)
  {
    hide PrintParams, Utf8.Encode, PrintLines, PrintId;
    var step := "\n" + PrintId(y) + ": ";
    var p := OnlyCovered([x, y]);
    var a := SignatureBase([Component(x, Plain(u + step + v)), Component(y, Plain(w))], p);
    var b := SignatureBase([Component(x, Plain(u)), Component(y, Plain(v + step + w))], p);
    TwoLines(a, u + step + v, w);
    TwoLines(b, u, v + step + w);
    Regroup(PrintId(x) + ": ", u, step, v, w);
    assert PrintBase(a) == PrintBase(b);
    assert |u + step + v| > |u|;
  }

  lemma {:induction false} Regroup(h: string, u: string, step: string, v: string, w: string)
    ensures h + (u + step + v) + (step + w) + "\n" == h + u + (step + (v + step + w)) + "\n"
  {
  }

  lemma {:induction false} TwoLines(b: SignatureBase, v: string, w: string)
    requires |b.lines| == 2 && b.lines[0].value == Plain(v) && b.lines[1].value == Plain(w)
    ensures PrintLines(b.lines)
         == PrintId(b.lines[0].id) + ": " + v + ("\n" + PrintId(b.lines[1].id) + ": " + w) + "\n"
  {
    hide PrintId;
    assert b.lines[1..] == [b.lines[1]] && b.lines[1..][1..] == [];
    assert PrintLines(b.lines[1..]) == PrintComponent(b.lines[1]) + "\n" + PrintLines([]);
    assert PrintLines([]) == "";
  }

  // ---- Decoding a whole base ----

  function ParseLines(texts: seq<string>): Result<seq<Component>> {
    if texts == [] then Ok([])
    else
      var c :- ParseComponent(texts[0]);
      var cs :- ParseLines(texts[1..]);
      Ok([c] + cs)
  }

  /** The component parser on every line but the last, the parameters parser on the last. */
  function DecodeBase(text: string): Result<SignatureBase> {
    var texts := Split(text, '\n');
    var last := texts[|texts| - 1];
    if !(PARAMS_PREFIX <= last) then Err(BuildSignatureBase)
    else
      var lines :- ParseLines(texts[..|texts| - 1]);
      var params :- ParseParamsText(last[|PARAMS_PREFIX|..]);
      TryNew(lines, params)
  }

  ghost predicate Decodable(c: Component) {
    && ':' !in PrintId(c.id)
    && c.value.Plain? && Trimmed(c.value.val) && '\n' !in c.value.val
  }

  lemma {:induction false} LinesDecode(cs: seq<Component>, texts: seq<string>)
    requires |cs| == |texts| && forall i | 0 <= i < |cs| :: texts[i] == PrintComponent(cs[i])
    requires forall c <- cs :: WellFormedId(c.id) && Decodable(c)
    ensures ParseLines(texts) == Ok(cs)
    decreases |cs|
  {
    hide ParseComponent, PrintComponent, WellFormedId, Decodable;
    if cs != [] {
      assert cs[0] in cs;
      OneDecodes(cs[0]);
      LinesDecode(cs[1..], texts[1..]);
      assert cs == [cs[0]] + cs[1..];
    }
  }

  lemma {:induction false} OneDecodes(c: Component)
    requires WellFormedId(c.id) && Decodable(c)
    ensures ParseComponent(PrintComponent(c)) == Ok(c)
  {
    hide ParseComponent, PrintComponent, WellFormedId;
    ComponentRoundTrip(c);
  }

  /** Splitting a printed base at its newlines and reading every line gives back the base. */
  lemma {:induction false} BaseRoundTrip(b: SignatureBase)
    requires TryNew(b.lines, b.params).Ok? && WellFormedParams(b.params)
    requires forall c <- b.lines :: WellFormedId(c.id) && Decodable(c)
    ensures DecodeBase(PrintBase(b)) == Ok(b)
  {
    hide PrintBase, PrintParams, PrintComponent, ParseParamsText, Split, WellFormedId, WellFormedParams, SameId;
    assert WellFormedBase(b) by {
      forall c <- b.lines ensures '\n' !in Render(c.value) { assert Decodable(c); }
    }
    WellFormedNoNewline(b);
    SplitBase(b);
    var texts := LineTexts(b);
    LinesDecode(b.lines, texts[..|texts| - 1]);
    assert texts[|texts| - 1][|PARAMS_PREFIX|..] == PrintParams(b.params);
    ParamsRoundTrip(b.params);
  }
}
