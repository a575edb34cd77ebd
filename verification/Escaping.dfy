/** The printers do not escape.  Exactly which identifiers and parameters survive that is decided by
    counting backslashes: a parser that yields a string has read an escape for every quotation mark
    and backslash in it, and a printer that does not escape has not written them. */
module Escaping {
  import opened Wrappers
  import opened Text
  import opened StructuredFields
  import opened ComponentId
  import opened SignatureParams
  import RT = StructuredFieldsRoundTrip
  import Base64
  import Utf8
  import Percent
  import OM = OrderedMap

  const BACKSLASH: char := '\\'

  /** How often a character occurs. */
  function Marks(m: char, s: string): nat {
    if s == "" then 0 else (if s[0] == m then 1 else 0) + Marks(m, s[1..])
  }

  lemma {:induction false} MarksAppend(m: char, a: string, b: string)
    ensures Marks(m, a + b) == Marks(m, a) + Marks(m, b)
  {
    if a == "" {
      assert a + b == b;
    } else {
      assert (a + b)[1..] == a[1..] + b;
      MarksAppend(m, a[1..], b);
    }
  }

  lemma {:induction false} NoMarks(m: char, s: string)
    ensures Marks(m, s) == 0 <==> m !in s
  {
    if s != "" {
      NoMarks(m, s[1..]);
      assert s == [s[0]] + s[1..];
    }
  }

  lemma {:induction false} FewerBehind(m: char, s: string, n: nat)
    requires n <= |s|
    ensures Marks(m, s[n..]) <= Marks(m, s)
  {
    assert s == s[..n] + s[n..];
    MarksAppend(m, s[..n], s[n..]);
  }

  // ---- What a value costs ----

  predicate Unescaped(t: string) {
    '"' !in t && '\\' !in t
  }

  /** The marks it takes to write a string with escapes. */
  function Cost(m: char, t: string): nat {
    Marks(m, Escape(t))
  }

  lemma {:induction false} CostExactly(m: char, t: string)
    ensures Cost(m, t) >= Marks(m, t)
    ensures Cost(BACKSLASH, t) == Marks(BACKSLASH, t) <==> Unescaped(t)
    decreases |t|
  {
    if t != "" {
      CostExactly(m, t[1..]);
      assert t == [t[0]] + t[1..];
      EscapeCons(m, t[0], t[1..]);
      EscapeCons(BACKSLASH, t[0], t[1..]);
      CostExactly(BACKSLASH, t[1..]);
    }
  }

  lemma {:induction false} EscapeCons(m: char, c: char, t: string)
    ensures Marks(m, [c] + t) == Marks(m, t) + (if c == m then 1 else 0)
    ensures Cost(m, [c] + t)
         == Cost(m, t) + (if c == m then 1 else 0) + (if (c == '"' || c == '\\') && m == BACKSLASH then 1 else 0)
  {
    assert ([c] + t)[1..] == t;
    var head := if c == '"' || c == '\\' then ['\\', c] else [c];
    MarksAppend(m, head, Escape(t));
    assert [c][1..] == "" && ['\\', c][1..] == [c];
  }

  function BareCost(m: char, b: BareItem): nat {
    if b.String? then Cost(m, b.str) else 0
  }

  function ParamsCost(m: char, ps: Parameters): nat {
    if ps == [] then 0 else BareCost(m, ps[0].1) + ParamsCost(m, ps[1..])
  }

  function ItemCost(m: char, i: Item): nat {
    BareCost(m, i.bare) + ParamsCost(m, i.params)
  }

  function ItemsCost(m: char, items: seq<Item>): nat {
    if items == [] then 0 else ItemCost(m, items[0]) + ItemsCost(m, items[1..])
  }

  lemma {:induction false} PutCost(m: char, ps: Parameters, k: string, v: BareItem)
    ensures ParamsCost(m, OM.Put(ps, k, v)) <= ParamsCost(m, ps) + BareCost(m, v)
  {
    hide BareCost;
    var r := OM.Put(ps, k, v);
    if ps == [] {
      assert r[1..] == [];
    } else if ps[0].0 == k {
      assert r[1..] == ps[1..];
    } else {
      PutCost(m, ps[1..], k, v);
      assert r[1..] == OM.Put(ps[1..], k, v);
    }
  }

  lemma {:induction false} CostSnoc(m: char, ps: Parameters, p: (string, BareItem))
    ensures ParamsCost(m, ps + [p]) == ParamsCost(m, ps) + BareCost(m, p.1)
  {
    hide BareCost;
    if ps == [] {
      assert ps + [p] == [p] && [p][1..] == [];
    } else {
      assert (ps + [p])[1..] == ps[1..] + [p];
      CostSnoc(m, ps[1..], p);
    }
  }

  // ---- Parsers read what a value costs ----

  lemma {:induction false} BodySpends(m: char, s: string)
    requires ParseStringBody(s).Some?
    ensures var (t, rest) := ParseStringBody(s).value; Marks(m, s) >= Cost(m, t) + Marks(m, rest)
    decreases |s|
  {
    if s[0] == '\\' {
      BodySpends(m, s[2..]);
      EscapeCons(m, s[1], ParseStringBody(s[2..]).value.0);
      assert s[1..][1..] == s[2..];
    } else if s[0] != '"' {
      BodySpends(m, s[1..]);
      EscapeCons(m, s[0], ParseStringBody(s[1..]).value.0);
    }
  }

  lemma {:induction false} BareSpends(m: char, s: string)
    requires ParseBare(s).Some?
    ensures var (b, rest) := ParseBare(s).value; Marks(m, s) >= BareCost(m, b) + Marks(m, rest)
  {
    hide ParseUnsigned, ParseStringBody, ParseDate, ParseDisplay, Cost, Base64.Decode, Run;
    if s[0] == '"' {
      BodySpends(m, s[1..]);
    } else if s[0] == ':' {
      var t := SplitOnce(s[1..], ':').value;
      MarksAppend(m, t.0 + [':'], t.1);
    } else if s[0] == '?' {
      FewerBehind(m, s, 2);
    } else if s[0] == '@' {
      DateSpends(m, s[1..]);
    } else if s[0] == '%' {
      DisplaySpends(m, s[1..]);
    } else if s[0] == '-' {
      UnsignedSpends(m, true, s[1..]);
    } else if IsDigit(s[0]) {
      UnsignedSpends(m, false, s);
    } else {
      FewerBehind(m, s, Run(s, TokenChar));
    }
  }

  lemma {:induction false} DateSpends(m: char, s: string)
    requires ParseDate(s).Some?
    ensures Marks(m, s) >= Marks(m, ParseDate(s).value.1)
  {
    hide ParseUnsigned, Marks;
    if StartsWith(s, '-') {
      FewerBehind(m, s, 1);
      UnsignedSpends(m, true, s[1..]);
    } else {
      UnsignedSpends(m, false, s);
    }
  }

  lemma {:induction false} DisplaySpends(m: char, s: string)
    requires ParseDisplay(s).Some?
    ensures Marks(m, s) >= Marks(m, ParseDisplay(s).value.1)
  {
    hide Percent.Read, Utf8.Decode, Marks;
    FewerBehind(m, s, 1);
    PercentSpends(m, s[1..]);
  }

  lemma {:induction false} PercentSpends(m: char, s: string)
    requires Percent.Read(s).Some?
    ensures Marks(m, s) >= Marks(m, Percent.Read(s).value.1)
    decreases |s|
  {
    hide Marks;
    if s[0] == '"' {
      FewerBehind(m, s, 1);
    } else if s[0] == '%' {
      FewerBehind(m, s, 3);
      PercentSpends(m, s[3..]);
    } else {
      FewerBehind(m, s, 1);
      PercentSpends(m, s[1..]);
    }
  }

  lemma {:induction false} UnsignedSpends(m: char, negative: bool, s: string)
    requires ParseUnsigned(negative, s).Some?
    ensures Marks(m, s) >= Marks(m, ParseUnsigned(negative, s).value.1)
  {
    hide Run, DigitsValue, FractionValue, Pow10, ValidBare, Marks;
    var n := Run(s, IsDigit);
    FewerBehind(m, s, n);
    if s[n..] != "" && s[n] == '.' {
      FewerBehind(m, s, n + 1);
      FewerBehind(m, s[n + 1..], Run(s[n + 1..], IsDigit));
    }
  }

  lemma {:induction false} ParamsSpend(m: char, s: string, acc: Parameters)
    requires ParseParams(s, acc).Some?
    ensures var (ps, rest) := ParseParams(s, acc).value;
            Marks(m, s) + ParamsCost(m, acc) >= ParamsCost(m, ps) + Marks(m, rest)
    decreases |s|
  {
    hide ParseKey, ParseBare, BareCost, Marks, Skip;
    if StartsWith(s, ';') {
      var t := Skip(s[1..], IsSp);
      var k := ParseKey(t).value;
      var v := ParseParamValue(k.1).value;
      KeySpends(m, s);
      ValueSpends(m, k.1);
      PutCost(m, acc, k.0, v.0);
      ParamsSpend(m, v.1, OM.Put(acc, k.0, v.0));
    }
  }

  lemma {:induction false} KeySpends(m: char, s: string)
    requires s != "" && ParseKey(Skip(s[1..], IsSp)).Some?
    ensures Marks(m, s) >= Marks(m, ParseKey(Skip(s[1..], IsSp)).value.1)
  {
    hide Run, Marks;
    var t := Skip(s[1..], IsSp);
    FewerBehind(m, s, 1);
    FewerBehind(m, s[1..], Run(s[1..], IsSp));
    FewerBehind(m, t, Run(t, KeyChar));
  }

  lemma {:induction false} ValueSpends(m: char, s: string)
    requires ParseParamValue(s).Some?
    ensures var (v, rest) := ParseParamValue(s).value; Marks(m, s) >= BareCost(m, v) + Marks(m, rest)
  {
    hide ParseBare, Marks;
    if StartsWith(s, '=') {
      FewerBehind(m, s, 1);
      BareSpends(m, s[1..]);
    }
  }

  lemma {:induction false} ItemSpends(m: char, s: string)
    requires ParseItem(s).Some?
    ensures var (i, rest) := ParseItem(s).value; Marks(m, s) >= ItemCost(m, i) + Marks(m, rest)
  {
    hide ParseBare, ParseParams, BareCost, Marks;
    BareSpends(m, s);
    ParamsSpend(m, ParseBare(s).value.1, []);
  }

  lemma {:induction false} ItemsSpend(m: char, s: string)
    requires ParseItems(s).Some?
    ensures var (items, rest) := ParseItems(s).value; Marks(m, s) >= ItemsCost(m, items) + Marks(m, rest)
    decreases |s|
  {
    hide ParseItem, ItemCost, Marks, Run;
    var t := Skip(s, IsSp);
    FewerBehind(m, s, Run(s, IsSp));
    if t[0] == ')' {
      FewerBehind(m, t, 1);
    } else {
      ItemSpends(m, t);
      var i := ParseItem(t).value;
      ItemsSpend(m, i.1);
      var rest := ParseItems(i.1).value.0;
      assert ([i.0] + rest)[1..] == rest;
    }
  }

  /** The first member of a list. */
  lemma {:induction false} ListSpends(m: char, s: string)
    requires ParseList(s).Some? && |ParseList(s).value| == 1 && ParseList(s).value[0].InnerEntry?
    ensures var l := ParseList(s).value[0].inner; Marks(m, s) >= ItemsCost(m, l.items) + ParamsCost(m, l.params)
  {
    hide ParseItems, ParseParams, ParseItem, ItemsCost, Marks, Run;
    var t := Skip(s, IsSp);
    FewerBehind(m, s, Run(s, IsSp));
    FewerBehind(m, t, 1);
    ItemsSpend(m, t[1..]);
    ParamsSpend(m, ParseItems(t[1..]).value.1, []);
  }

  // ---- Serialised items without a quotation mark ----

  lemma {:induction false} BareUnquoted(b: BareItem)
    requires ValidBare(b)
    ensures '"' in SerBare(b) || '\\' !in SerBare(b)
  {
    hide PrintNat, SerFraction, Escape, Base64.Encode, Percent.Encode, Utf8.Encode, Sign, Abs, TokenChar;
    match b
    case String(t) =>
      assert SerBare(b)[0] in SerBare(b);
    case DisplayString(t) =>
      assert SerBare(b)[1] in SerBare(b);
    case ByteSequence(x) =>
      Base64.EncodeAlphabet(x);
    case Decimal(d) =>
      SignOnly(d);
      RT.FractionRead(Abs(d) % 1000);
      DigitsOnly(PrintNat(Abs(d) / 1000));
      DigitsOnly(SerFraction(Abs(d) % 1000));
    case Integer(n) =>
      SignOnly(n);
      DigitsOnly(PrintNat(Abs(n)));
    case Date(n) =>
      SignOnly(n);
      DigitsOnly(PrintNat(Abs(n)));
    case Token(t) =>
      TokenUnquoted(t);
    case Boolean(_) =>
  }

  lemma {:induction false} SignOnly(n: int)
    ensures '\\' !in Sign(n) && (Sign(n) != "" ==> !IsWhitespace(Sign(n)[0]))
  {
  }

  lemma {:induction false} TokenUnquoted(t: string)
    requires ValidToken(t)
    ensures '\\' !in t
  {
  }

  lemma {:induction false} DigitsOnly(s: string)
    requires forall c <- s :: IsDigit(c)
    ensures '\\' !in s
  {
  }

  lemma {:induction false} KeyPlain(k: string)
    requires ValidKey(k)
    ensures '\\' !in k
  {
  }

  lemma {:induction false} ParamsUnquoted(ps: Parameters)
    requires (forall p <- ps :: ValidKey(p.0) && ValidBare(p.1)) && '"' !in SerParams(ps)
    ensures '\\' !in SerParams(ps)
  {
    hide SerBare, ValidBare, ValidKey;
    if ps != [] {
      var p, s := ps[0], SerParams(ps);
      assert p in ps;
      assert forall c <- SerParam(p) :: c in s;
      assert forall c <- SerParams(ps[1..]) :: c in s;
      ParamsUnquoted(ps[1..]);
      KeyPlain(p.0);
      if p.1 != Boolean(true) {
        assert forall c <- SerBare(p.1) :: c in SerParam(p);
        BareUnquoted(p.1);
      }
    }
  }

  lemma {:induction false} ItemUnquoted(i: Item)
    requires ValidItem(i) && '"' !in SerItem(i)
    ensures '\\' !in SerItem(i)
  {
    hide SerBare, SerParams, ValidBare, ValidKey;
    assert forall c <- SerBare(i.bare) :: c in SerItem(i);
    assert forall c <- SerParams(i.params) :: c in SerItem(i);
    BareUnquoted(i.bare);
    ParamsUnquoted(i.params);
  }

  // ---- Serialised items have no white space at their ends ----

  ghost predicate Ends(s: string) {
    s != "" && !IsWhitespace(s[0]) && !IsWhitespace(s[|s| - 1])
  }

  lemma {:induction false} Enclosed(a: string, s: string, b: string)
    requires (a != "" && !IsWhitespace(a[0])) || (a == "" && Ends(s))
    requires (b != "" && !IsWhitespace(b[|b| - 1])) || (b == "" && Ends(s))
    ensures Ends(a + s + b)
  {
    hide IsWhitespace;
  }

  lemma {:induction false} BareEnds(b: BareItem)
    requires ValidBare(b)
    ensures Ends(SerBare(b))
  {
    hide PrintNat, SerFraction, Escape, Base64.Encode, Percent.Encode, Utf8.Encode, Sign, Abs, Ends, TokenChar;
    match b
    case Integer(n) =>
      NumberEnds(n, PrintNat(Abs(n)));
    case Date(n) =>
      NumberEnds(n, PrintNat(Abs(n)));
      Enclosed("@", Sign(n) + PrintNat(Abs(n)), "");
      assert SerBare(b) == "@" + (Sign(n) + PrintNat(Abs(n))) + "";
    case Decimal(d) =>
      RT.FractionRead(Abs(d) % 1000);
      NumberEnds(d, PrintNat(Abs(d) / 1000));
      DigitsAreEnds(SerFraction(Abs(d) % 1000));
      TwoEnds(Sign(d) + PrintNat(Abs(d) / 1000), ".", SerFraction(Abs(d) % 1000));
    case Token(t) =>
      TokenEnds(t);
    case String(t) =>
      Enclosed("\"", Escape(t), "\"");
    case ByteSequence(x) =>
      Enclosed(":", Base64.Encode(x), ":");
    case DisplayString(t) =>
      Enclosed("%\"", Percent.Encode(Utf8.Encode(t)), "\"");
      assert SerBare(b) == "%\"" + Percent.Encode(Utf8.Encode(t)) + "\"";
    case Boolean(v) =>
      DigitsAreEnds(if v then "1" else "0");
      Enclosed("?", if v then "1" else "0", "");
      assert SerBare(b) == "?" + (if v then "1" else "0") + "";
  }

  lemma {:induction false} DigitsAreEnds(s: string)
    requires s != "" && forall c <- s :: IsDigit(c)
    ensures Ends(s)
  {
    DigitsEnd(s);
  }

  lemma {:induction false} TwoEnds(a: string, s: string, b: string)
    requires Ends(a) && Ends(b)
    ensures Ends(a + s + b)
  {
    hide IsWhitespace;
  }

  lemma {:induction false} NumberEnds(n: int, digits: string)
    requires digits != "" && forall c <- digits :: IsDigit(c)
    ensures Ends(Sign(n) + digits)
  {
    hide IsWhitespace, IsDigit;
    DigitsAreEnds(digits);
    SignOnly(n);
  }

  lemma {:induction false} TokenEnds(t: string)
    requires ValidToken(t)
    ensures Ends(t)
  {
    hide TokenChar, TokenStart, IsWhitespace;
    assert t[0] in t && t[|t| - 1] in t;
    TokenVisible(t[0]);
    TokenVisible(t[|t| - 1]);
  }

  lemma {:induction false} TokenVisible(c: char)
    requires TokenChar(c) || TokenStart(c) || KeyChar(c)
    ensures !IsWhitespace(c)
  {
  }

  lemma {:induction false} DigitsEnd(s: string)
    requires s != "" && forall c <- s :: IsDigit(c)
    ensures !IsWhitespace(s[0]) && !IsWhitespace(s[|s| - 1])
  {
    assert s[0] in s && s[|s| - 1] in s;
  }

  lemma {:induction false} ParamsEnd(ps: Parameters)
    requires ps != [] && forall p <- ps :: ValidKey(p.0) && ValidBare(p.1)
    ensures var s := SerParams(ps); s != "" && !IsWhitespace(s[|s| - 1])
  {
    hide SerBare, ValidBare, KeyChar, IsWhitespace;
    var p, s := ps[0], SerParams(ps);
    assert p in ps;
    if |ps| > 1 {
      ParamsEnd(ps[1..]);
      var t := SerParams(ps[1..]);
      assert s[|s| - 1] == t[|t| - 1];
    } else {
      assert SerParams(ps[1..]) == "";
      assert s == SerParam(p);
      if p.1 == Boolean(true) {
        assert p.0[|p.0| - 1] in p.0;
        TokenVisible(p.0[|p.0| - 1]);
        assert s[|s| - 1] == p.0[|p.0| - 1];
      } else {
        BareEnds(p.1);
        var b := SerBare(p.1);
        assert s[|s| - 1] == b[|b| - 1];
      }
    }
  }

  lemma {:induction false} ItemTrimmed(i: Item)
    requires ValidItem(i)
    ensures Trimmed(SerItem(i))
  {
    hide SerBare, SerParams, ValidBare, ValidKey, IsWhitespace;
    BareEnds(i.bare);
    var s, t := SerItem(i), SerParams(i.params);
    if i.params != [] {
      ParamsEnd(i.params);
      assert s[|s| - 1] == t[|t| - 1];
    } else {
      NoParams();
      assert s == SerBare(i.bare);
    }
  }

  lemma {:induction false} NoParams()
    ensures SerParams([]) == ""
  {
  }

  // ---- Identifiers ----

  lemma {:induction false} ParamsFromCost(m: char, ps: Parameters)
    requires ParamsFrom(ps).Ok?
    ensures ParamsCost(m, ParamPairs(ParamsFrom(ps).value)) <= ParamsCost(m, ps)
  {
    hide ParamFrom, ParamPair, BareCost;
    if ps != [] {
      var init, last := ps[..|ps| - 1], ps[|ps| - 1];
      ParamsFromCost(m, init);
      var cs, c := ParamsFrom(init).value, ParamFrom(last.0, last.1).value;
      assert ps == init + [last];
      CostSnoc(m, init, last);
      assert ParamPairs(cs + [c]) == ParamPairs(cs) + [ParamPair(c)];
      CostSnoc(m, ParamPairs(cs), ParamPair(c));
      ParamFromCost(m, last.0, last.1);
    }
  }

  lemma {:induction false} ParamFromCost(m: char, k: string, v: BareItem)
    requires ParamFrom(k, v).Ok?
    ensures BareCost(m, ParamPair(ParamFrom(k, v).value).1) <= BareCost(m, v)
  {
    hide Cost;
  }

  lemma {:induction false} TrimSpends(m: char, s: string)
    ensures Marks(m, Trim(s)) <= Marks(m, s)
  {
    TrimStartSpends(m, s);
    TrimEndSpends(m, TrimStart(s));
  }

  lemma {:induction false} TrimStartSpends(m: char, s: string)
    ensures Marks(m, TrimStart(s)) <= Marks(m, s)
  {
    if s != "" { TrimStartSpends(m, s[1..]); }
  }

  lemma {:induction false} TrimEndSpends(m: char, s: string)
    ensures Marks(m, TrimEnd(s)) <= Marks(m, s)
  {
    hide Marks;
    if s != "" {
      TrimEndSpends(m, s[..|s| - 1]);
      assert s == s[..|s| - 1] + s[|s| - 1..];
      MarksAppend(m, s[..|s| - 1], s[|s| - 1..]);
    }
  }

  lemma {:induction false} IdTextSpends(m: char, s: string)
    requires m != '"'
    ensures Marks(m, IdText(s)) <= Marks(m, s)
  {
    hide Marks, Trim;
    TrimSpends(m, s);
    var v := Trim(s);
    NoMarks(m, "\"");
    MarksAppend(m, "\"", v);
    MarksAppend(m, "\"" + v, "\"");
  }

  /** Reading an identifier costs what its strings cost, and they are printable. */
  lemma {:induction false} IdSpends(m: char, s: string)
    requires m != '"' && ParseId(s).Ok?
    ensures Marks(m, s) >= ItemCost(m, IdItem(ParseId(s).value))
    ensures PrintableId(ParseId(s).value)
  {
    hide Marks, IdText, ParseItem, Run, ParamsFrom, Cost, Allowed;
    var t := IdText(s);
    IdTextSpends(m, s);
    FewerBehind(m, t, Run(t, IsSp));
    ItemSpends(m, Skip(t, IsSp));
    var item := ParseItemField(t).value;
    ParamsFromCost(m, item.params);
    RT.ParsedItem(Skip(t, IsSp));
    NameReads(item.bare);
    ParamsPrintable(item.params);
  }

  lemma {:induction false} NameReads(b: BareItem)
    requires NameFrom(b).Ok?
    ensures b.String? && NameText(NameFrom(b).value) == b.str
  {
  }

  lemma {:induction false} ParamsPrintable(ps: Parameters)
    requires ParamsFrom(ps).Ok? && forall p <- ps :: ValidBare(p.1)
    ensures forall p <- ParamsFrom(ps).value :: PrintableParam(p)
  {
    hide ParamFrom, PrintableParam, ValidBare;
    if ps != [] {
      var last := ps[|ps| - 1];
      assert last in ps;
      ParamsPrintable(ps[..|ps| - 1]);
      ParamPrintable(last.0, last.1);
    }
  }

  lemma {:induction false} ParamPrintable(k: string, v: BareItem)
    requires ParamFrom(k, v).Ok? && ValidBare(v)
    ensures PrintableParam(ParamFrom(k, v).value)
  {
  }

  /** A serialised item that is read as an identifier is read as the item, or, without quotation
      marks, as a name that costs nothing. */
  lemma {:induction false} SerialisedSpends(i: Item)
    requires ValidItem(i) && ParseId(SerItem(i)).Ok?
    ensures ItemCost(BACKSLASH, IdItem(ParseId(SerItem(i)).value)) <= ItemCost(BACKSLASH, i)
    ensures PrintableId(ParseId(SerItem(i)).value)
  {
    hide Marks, SerItem, ParseItem, ParamsFrom, ValidItem, PrintableId, Cost, Allowed, Trimmed;
    var s := SerItem(i);
    IdSpends(BACKSLASH, s);
    if '"' !in s {
      ItemUnquoted(i);
      NoMarks(BACKSLASH, s);
    } else {
      ItemTrimmed(i);
      TrimTrimmed(s);
      assert IdText(s) == s;
      ItemReadsAlone(i);
      ParamsFromCost(BACKSLASH, i.params);
      NameReads(i.bare);
    }
  }

  lemma {:induction false} ItemReadsAlone(i: Item)
    requires ValidItem(i)
    ensures ParseItemField(SerItem(i)) == Some(i)
  {
    hide ParseItem, SerItem, ValidItem;
    var s := SerItem(i);
    SerialisedStart(i);
    RT.SkipNothing(s, IsSp);
    RT.SkipNothing("", IsSp);
    RT.ItemRead(i, "");
    assert s + "" == s;
  }

  lemma {:induction false} SerialisedStart(i: Item)
    requires ValidItem(i)
    ensures SerItem(i) != "" && SerItem(i)[0] != ' '
  {
    hide SerBare, SerParams, ValidBare, ValidKey;
    RT.BareStart(i.bare);
  }

  predicate UnescapedParam(p: ComponentParam) {
    match p
    case Key(v) => Unescaped(v)
    case Name(v) => Unescaped(v)
    case _ => true
  }

  predicate UnescapedId(id: ComponentId) {
    Unescaped(NameText(id.name)) && forall p <- id.params :: UnescapedParam(p)
  }

  /** These occur in a printed identifier only inside its strings. */
  predicate IsMark(m: char) {
    m == BACKSLASH || m == ':'
  }

  lemma {:induction false} ParamPrintCost(m: char, p: ComponentParam)
    requires IsMark(m)
    ensures BareCost(m, ParamPair(p).1) >= Marks(m, ParamText(p))
    ensures m == BACKSLASH && BareCost(m, ParamPair(p).1) == Marks(m, ParamText(p)) ==> UnescapedParam(p)
  {
    hide Cost, Marks, Unescaped;
    match p
    case Key(v) => QuotedCost(m, "key=\"", v);
    case Name(v) => QuotedCost(m, "name=\"", v);
    case _ => NoMarks(m, ParamText(p));
  }

  lemma {:induction false} QuotedCost(m: char, k: string, v: string)
    requires m !in k && IsMark(m)
    ensures Marks(m, k + v + "\"") == Marks(m, v)
    ensures Cost(m, v) >= Marks(m, v)
    ensures m == BACKSLASH && Cost(m, v) == Marks(m, v) ==> Unescaped(v)
  {
    NoMarks(m, k);
    NoMarks(m, "\"");
    MarksAppend(m, k, v);
    MarksAppend(m, k + v, "\"");
    CostExactly(m, v);
  }

  lemma {:induction false} TextsPrintCost(m: char, ps: seq<ComponentParam>)
    requires IsMark(m)
    ensures ParamsCost(m, ParamPairs(ps)) >= Marks(m, Join(ParamTexts(ps), ";"))
    ensures m == BACKSLASH && ParamsCost(m, ParamPairs(ps)) == Marks(m, Join(ParamTexts(ps), ";")) ==>
      forall p <- ps :: UnescapedParam(p)
  {
    hide BareCost, Marks, UnescapedParam, ParamText, ParamPair;
    if ps == [] {
      NoMarks(m, "");
    } else {
      var p, rest := ps[0], ps[1..];
      assert ps == [p] + rest;
      ParamPrintCost(m, p);
      TextsPrintCost(m, rest);
      assert ParamTexts(ps)[1..] == ParamTexts(rest) && ParamPairs(ps)[1..] == ParamPairs(rest);
      NoMarks(m, ";");
      MarksAppend(m, ParamText(p), ";");
      MarksAppend(m, ParamText(p) + ";", Join(ParamTexts(rest), ";"));
    }
  }

  /** Printing an identifier never takes more marks than its strings cost, and takes as many
      backslashes only if none of them needs escaping. */
  lemma {:induction false} IdPrintCost(m: char, id: ComponentId)
    requires IsMark(m)
    ensures ItemCost(m, IdItem(id)) >= Marks(m, PrintId(id))
    ensures m == BACKSLASH && ItemCost(m, IdItem(id)) == Marks(m, PrintId(id)) ==> UnescapedId(id)
  {
    hide Cost, Marks, UnescapedParam, Join, Unescaped, ParamsCost;
    var n := NameText(id.name);
    QuotedCost(m, "\"", n);
    TextsPrintCost(m, id.params);
    var head, tail := "\"" + n + "\"", PrintIdParams(id.params);
    MarksAppend(m, head, tail);
    NoMarks(m, ";");
    NoMarks(m, "");
    MarksAppend(m, ";", Join(ParamTexts(id.params), ";"));
    assert Marks(m, tail) <= ParamsCost(m, ParamPairs(id.params)) by {
      if id.params == [] { NoMarks(m, ""); }
    }
    if id.params != [] { assert tail == ";" + Join(ParamTexts(id.params), ";"); }
  }

  lemma {:induction false} PlainIsBoth(id: ComponentId)
    requires UnescapedId(id) && PrintableId(id)
    ensures PlainId(id)
  {
    forall p <- id.params ensures PlainParam(p) {
      assert UnescapedParam(p) && PrintableParam(p);
    }
  }

  /** An identifier reads back from its printed form exactly when it is well formed. */
  lemma {:induction false} IdReadsBackExactly(id: ComponentId)
    ensures ParseId(PrintId(id)) == Ok(id) <==> WellFormedId(id)
  {
    hide PrintId, ParseId, WellFormedId, UnescapedId, PrintableId, Marks, ItemCost;
    if WellFormedId(id) { IdRoundTrip(id); }
    if ParseId(PrintId(id)) == Ok(id) {
      IdSpends(BACKSLASH, PrintId(id));
      IdPrintCost(BACKSLASH, id);
      PlainIsBoth(id);
      ParsedId(PrintId(id));
    }
  }

  // ---- Parameters ----

  function OptionCost(t: Option<string>): nat {
    if t.None? then 0 else Cost(BACKSLASH, t.value)
  }

  function TextsCost(p: SigParams): nat {
    OptionCost(p.nonce) + OptionCost(p.alg) + OptionCost(p.keyid) + OptionCost(p.tag)
  }

  lemma {:induction false} ApplyCost(p: SigParams, k: string, v: BareItem)
    requires Apply(p, k, v).Ok? && ValidBare(v) && PrintableTexts(p)
    ensures TextsCost(Apply(p, k, v).value) <= TextsCost(p) + BareCost(BACKSLASH, v)
    ensures PrintableTexts(Apply(p, k, v).value) && Apply(p, k, v).value.covered == p.covered
  {
    hide OptionCost, BareCost, TextFrom, PrintableOption, ValidBare;
    TextFromCost(v);
  }

  lemma {:induction false} TextFromCost(v: BareItem)
    requires ValidBare(v)
    ensures OptionCost(TextFrom(v)) <= BareCost(BACKSLASH, v) && PrintableOption(TextFrom(v))
  {
    hide Cost;
  }

  lemma {:induction false} ApplyAllCost(p: SigParams, ps: Parameters)
    requires ApplyAll(p, ps).Ok? && (forall q <- ps :: ValidBare(q.1)) && PrintableTexts(p)
    ensures var r := ApplyAll(p, ps).value;
            TextsCost(r) <= TextsCost(p) + ParamsCost(BACKSLASH, ps) && PrintableTexts(r) && r.covered == p.covered
    decreases ps
  {
    hide Apply, TextsCost, BareCost, PrintableTexts, ValidBare;
    if ps != [] {
      assert ps[0] in ps;
      ApplyCost(p, ps[0].0, ps[0].1);
      ApplyAllCost(Apply(p, ps[0].0, ps[0].1).value, ps[1..]);
    }
  }

  lemma {:induction false} IdsSpend(items: seq<Item>)
    requires IdsFrom(items).Ok? && forall i <- items :: ValidItem(i)
    ensures ItemsCost(BACKSLASH, IdItems(IdsFrom(items).value)) <= ItemsCost(BACKSLASH, items)
    ensures forall id <- IdsFrom(items).value :: PrintableId(id)
  {
    hide ParseId, ItemCost, PrintableId, ValidItem, IdItem;
    if items != [] {
      assert items[0] in items;
      SerialisedSpends(items[0]);
      IdsSpend(items[1..]);
      var id, ids := ParseId(SerItem(items[0])).value, IdsFrom(items[1..]).value;
      assert IdItems([id] + ids)[1..] == IdItems(ids);
    }
  }

  lemma {:induction false} EntrySpends(e: ListEntry)
    requires ValidEntry(e) && ParamsFromEntry(e).Ok?
    ensures var p := ParamsFromEntry(e).value;
            && ItemsCost(BACKSLASH, e.inner.items) + ParamsCost(BACKSLASH, e.inner.params) >=
              ItemsCost(BACKSLASH, IdItems(p.covered)) + TextsCost(p)
            && PrintableParams(p)
  {
    hide ItemsCost, ParamsCost, IdsFrom, ApplyAll, SameId, PrintableId, ValidItem, ValidParams;
    IdsSpend(e.inner.items);
    ValidBares(e.inner.params);
    ApplyAllCost(OnlyCovered(IdsFrom(e.inner.items).value), e.inner.params);
  }

  /** Reading parameters costs what their strings cost, and they are printable. */
  lemma {:induction false} ParamsTextSpends(s: string)
    requires ParseParamsText(s).Ok?
    ensures var p := ParseParamsText(s).value;
            Marks(BACKSLASH, s) >= ItemsCost(BACKSLASH, IdItems(p.covered)) + TextsCost(p) && PrintableParams(p)
  {
    hide ParseList, Marks, ItemsCost, ParamsCost, ParamsFromEntry, PrintableId, ValidItem, ValidParams;
    ListSpends(BACKSLASH, s);
    RT.ParsedList(s);
    var l := ParseList(s).value[0];
    assert ValidEntry(l);
    EntrySpends(l);
  }

  lemma {:induction false} ValidBares(ps: Parameters)
    requires ValidParams(ps)
    ensures forall q <- ps :: ValidBare(q.1)
  {
  }

  lemma {:induction false} IdsPrintCost(ids: seq<ComponentId>)
    ensures ItemsCost(BACKSLASH, IdItems(ids)) >= Marks(BACKSLASH, PrintIds(ids))
    ensures ItemsCost(BACKSLASH, IdItems(ids)) == Marks(BACKSLASH, PrintIds(ids)) ==>
      forall id <- ids :: UnescapedId(id)
  {
    hide ItemCost, Marks, UnescapedId, PrintId, IdItem;
    if ids == [] {
      NoMarks(BACKSLASH, "");
    } else {
      var id, rest := ids[0], ids[1..];
      assert ids == [id] + rest;
      IdPrintCost(BACKSLASH, id);
      IdsPrintCost(rest);
      assert IdTexts(ids)[1..] == IdTexts(rest) && IdItems(ids)[1..] == IdItems(rest);
      NoMarks(BACKSLASH, " ");
      MarksAppend(BACKSLASH, PrintId(id), " ");
      MarksAppend(BACKSLASH, PrintId(id) + " ", Join(IdTexts(rest), " "));
    }
  }

  predicate UnescapedOption(t: Option<string>) {
    t.Some? ==> Unescaped(t.value)
  }

  lemma {:induction false} QuotedTextCost(k: string, t: Option<string>)
    requires '\\' !in k
    ensures OptionCost(t) >= Marks(BACKSLASH, QuotedText(k, t))
    ensures OptionCost(t) == Marks(BACKSLASH, QuotedText(k, t)) ==> UnescapedOption(t)
  {
    hide Cost, Marks, Unescaped;
    NoMarks(BACKSLASH, "");
    if t.Some? { QuotedCost(BACKSLASH, ";" + k + "=\"", t.value); }
  }

  lemma {:induction false} TimeTextCost(k: string, t: Option<nat>)
    requires '\\' !in k
    ensures Marks(BACKSLASH, TimeText(k, t)) == 0
  {
    hide PrintNat;
    if t.Some? { DigitsOnly(PrintNat(t.value)); }
    NoMarks(BACKSLASH, TimeText(k, t));
  }

  lemma {:induction false} RestPrintCost(p: SigParams)
    ensures TextsCost(p) >= Marks(BACKSLASH, PrintRest(p))
    ensures TextsCost(p) == Marks(BACKSLASH, PrintRest(p)) ==>
      UnescapedOption(p.nonce) && UnescapedOption(p.alg) && UnescapedOption(p.keyid) && UnescapedOption(p.tag)
  {
    hide OptionCost, Marks, UnescapedOption, TimeText, QuotedText;
    var a, b, c := TimeText("created", p.created), TimeText("expires", p.expires), QuotedText("nonce", p.nonce);
    var d, e, f := QuotedText("alg", p.alg), QuotedText("keyid", p.keyid), QuotedText("tag", p.tag);
    TimeTextCost("created", p.created);
    TimeTextCost("expires", p.expires);
    QuotedTextCost("nonce", p.nonce);
    QuotedTextCost("alg", p.alg);
    QuotedTextCost("keyid", p.keyid);
    QuotedTextCost("tag", p.tag);
    MarksAppend(BACKSLASH, a, b);
    MarksAppend(BACKSLASH, a + b, c);
    MarksAppend(BACKSLASH, a + b + c, d);
    MarksAppend(BACKSLASH, a + b + c + d, e);
    MarksAppend(BACKSLASH, a + b + c + d + e, f);
  }

  lemma {:induction false} PrintedBackslashes(p: SigParams)
    ensures Marks(BACKSLASH, PrintParams(p)) == Marks(BACKSLASH, PrintIds(p.covered)) + Marks(BACKSLASH, PrintRest(p))
  {
    hide PrintIds, PrintRest, Marks;
    NoMarks(BACKSLASH, "(");
    NoMarks(BACKSLASH, ")");
    MarksAppend(BACKSLASH, "(", PrintIds(p.covered));
    MarksAppend(BACKSLASH, "(" + PrintIds(p.covered), ")");
    MarksAppend(BACKSLASH, "(" + PrintIds(p.covered) + ")", PrintRest(p));
  }

  lemma {:induction false} OptionIsPlain(t: Option<string>)
    requires UnescapedOption(t) && PrintableOption(t)
    ensures PlainOption(t)
  {
  }

  /** Text that a parser could take for these parameters with escapes, and that the printer writes
      without, holds nothing that needs escaping. */
  lemma {:induction false} SpentIsPlain(p: SigParams)
    requires Marks(BACKSLASH, PrintParams(p)) >= ItemsCost(BACKSLASH, IdItems(p.covered)) + TextsCost(p)
    requires PrintableParams(p)
    ensures PlainParams(p)
  {
    hide PrintParams, UnescapedId, PrintableId, PlainId, Marks;
    hide ItemsCost, TextsCost, PrintIds, PrintRest, UnescapedOption, PrintableOption, PlainOption;
    PrintedBackslashes(p);
    IdsPrintCost(p.covered);
    RestPrintCost(p);
    forall id <- p.covered ensures PlainId(id) { PlainIsBoth(id); }
    OptionIsPlain(p.nonce);
    OptionIsPlain(p.alg);
    OptionIsPlain(p.keyid);
    OptionIsPlain(p.tag);
  }

  /** Printed parameters read back as the same parameters exactly when they are well formed: no
      string needs escaping, times have at most 15 digits, the identifiers are ones the parser can
      produce, and none is covered twice. */
  lemma {:induction false} ParamsReadBackExactly(p: SigParams)
    ensures ParseParamsText(PrintParams(p)) == Ok(p) <==> WellFormedParams(p)
  {
    hide PrintParams, ParseParamsText, WellFormedParams, PrintableParams, PlainParams, Marks, ItemsCost, TextsCost;
    if WellFormedParams(p) { ParamsRoundTrip(p); }
    if ParseParamsText(PrintParams(p)) == Ok(p) {
      ParamsTextSpends(PrintParams(p));
      SpentIsPlain(p);
      ParamsNormalise(PrintParams(p));
    }
  }

  // ---- Parameters in a dictionary ----

  function EntryCost(e: ListEntry): nat {
    match e
    case ItemEntry(i) => ItemCost(BACKSLASH, i)
    case InnerEntry(l) => ItemsCost(BACKSLASH, l.items) + ParamsCost(BACKSLASH, l.params)
  }

  lemma {:induction false} EntryReadSpends(s: string)
    requires ParseEntry(s).Some?
    ensures var (e, rest) := ParseEntry(s).value; Marks(BACKSLASH, s) >= EntryCost(e) + Marks(BACKSLASH, rest)
  {
    hide ParseItems, ParseParams, ParseItem, ItemsCost, ItemCost, Marks;
    if StartsWith(s, '(') {
      FewerBehind(BACKSLASH, s, 1);
      ItemsSpend(BACKSLASH, s[1..]);
      ParamsSpend(BACKSLASH, ParseItems(s[1..]).value.1, []);
    } else {
      ItemSpends(BACKSLASH, s);
    }
  }

  lemma {:induction false} MemberSpends(s: string)
    requires ParseMember(true, s).Some?
    ensures var (m, rest) := ParseMember(true, s).value;
            Marks(BACKSLASH, s) >= EntryCost(m.1) + Marks(BACKSLASH, rest)
  {
    hide ParseEntry, ParseParams, Run, Marks, ParamsCost, ItemsCost;
    var k := ParseKey(s).value;
    FewerBehind(BACKSLASH, s, Run(s, KeyChar));
    if StartsWith(k.1, '=') {
      FewerBehind(BACKSLASH, k.1, 1);
      EntryReadSpends(k.1[1..]);
    } else {
      ParamsSpend(BACKSLASH, k.1, []);
      NoPairsCost();
    }
  }

  lemma {:induction false} NoPairsCost()
    ensures ParamsCost(BACKSLASH, []) == 0
  {
  }

  function EntriesCost(d: Dictionary): nat {
    if d == [] then 0 else EntryCost(d[0].1) + EntriesCost(d[1..])
  }

  lemma {:induction false} MembersSpend(s: string)
    requires ParseMembers(true, s).Some?
    ensures Marks(BACKSLASH, s) >= EntriesCost(ParseMembers(true, s).value)
    decreases |s|
  {
    hide ParseMember, EntryCost, Marks, Run;
    if s != "" {
      MemberSpends(s);
      var m := ParseMember(true, s).value;
      var r := Skip(m.1, IsOws);
      FewerBehind(BACKSLASH, m.1, Run(m.1, IsOws));
      if r == "" {
        assert [m.0][1..] == [];
      } else {
        FewerBehind(BACKSLASH, r, 1);
        FewerBehind(BACKSLASH, r[1..], Run(r[1..], IsOws));
        MembersSpend(Skip(r[1..], IsOws));
        var ms := ParseMembers(true, Skip(r[1..], IsOws)).value;
        assert ([m.0] + ms)[1..] == ms;
      }
    }
  }

  lemma {:induction false} PutEntryCost(d: Dictionary, k: string, e: ListEntry)
    ensures EntriesCost(OM.Put(d, k, e)) <= EntriesCost(d) + EntryCost(e)
  {
    hide EntryCost;
    var r := OM.Put(d, k, e);
    if d == [] {
      assert r[1..] == [];
    } else if d[0].0 == k {
      assert r[1..] == d[1..];
    } else {
      PutEntryCost(d[1..], k, e);
      assert r[1..] == OM.Put(d[1..], k, e);
    }
  }

  lemma {:induction false} PutAllCost(d: Dictionary, n: Dictionary)
    ensures EntriesCost(OM.PutAll(d, n)) <= EntriesCost(d) + EntriesCost(n)
    decreases n
  {
    hide EntryCost, OM.Put;
    if n != [] {
      PutEntryCost(d, n[0].0, n[0].1);
      PutAllCost(OM.Put(d, n[0].0, n[0].1), n[1..]);
    }
  }

  lemma {:induction false} EntryWithin(d: Dictionary, m: (string, ListEntry))
    requires m in d
    ensures EntryCost(m.1) <= EntriesCost(d)
  {
    hide EntryCost;
    if d[0] != m {
      assert d == [d[0]] + d[1..];
      EntryWithin(d[1..], m);
    }
  }

  lemma {:induction false} PutAllFrom(d: Dictionary, n: Dictionary)
    ensures forall m <- OM.PutAll(d, n) :: m in d || m in n
    decreases n
  {
    if n != [] {
      PutFrom(d, n[0].0, n[0].1);
      PutAllFrom(OM.Put(d, n[0].0, n[0].1), n[1..]);
      assert n == [n[0]] + n[1..];
    }
  }

  lemma {:induction false} PutFrom(d: Dictionary, k: string, e: ListEntry)
    ensures forall m <- OM.Put(d, k, e) :: m in d || m == (k, e)
  {
    if d != [] && d[0].0 != k {
      PutFrom(d[1..], k, e);
      assert d == [d[0]] + d[1..];
    } else if d != [] {
      assert d == [d[0]] + d[1..];
    }
  }

  lemma {:induction false} DictionarySpends(s: string)
    requires ParseDictionary(s).Some?
    ensures Marks(BACKSLASH, s) >= EntriesCost(ParseDictionary(s).value)
  {
    hide ParseMembers, EntryCost, Marks, Run;
    FewerBehind(BACKSLASH, s, Run(s, IsSp));
    var t := Skip(s, IsSp);
    MembersSpend(t);
    PutAllCost([], ParseMembers(true, t).value);
  }

  /** If a dictionary member written without escapes is read as the same parameters, then they are well
      formed. */
  lemma {:induction false} MemberIsWellFormed(k: string, p: SigParams, e: ListEntry)
    requires ParseDictionary(k + "=" + PrintParams(p)).Some?
    requires (k, e) in ParseDictionary(k + "=" + PrintParams(p)).value
    requires ParamsFromEntry(e) == Ok(p)
    ensures ValidKey(k) && WellFormedParams(p)
  {
    hide ParseDictionary, PrintParams, ParamsFromEntry, Marks, ItemsCost, ParamsCost, TextsCost, ItemCost;
    hide WellFormedParams, PlainParams, PrintableParams, ValidEntry, ValidKey;
    var s := k + "=" + PrintParams(p);
    RT.ParsedDictionary(s);
    assert ValidKey((k, e).0) && ValidEntry((k, e).1);
    DictionarySpends(s);
    EntryWithin(ParseDictionary(s).value, (k, e));
    assert Marks(BACKSLASH, s) >= EntryCost((k, e).1);
    assert e.InnerEntry? by { EntryIsInner(e); }
    EntrySpends(e);
    KeyPlain(k);
    NoMarks(BACKSLASH, k + "=");
    MarksAppend(BACKSLASH, k + "=", PrintParams(p));
    SpentIsPlain(p);
    EntryParsed(e);
  }

  lemma {:induction false} EntryIsInner(e: ListEntry)
    requires ParamsFromEntry(e).Ok?
    ensures e.InnerEntry?
  {
  }

  // ---- Well-formed parameters print without backslashes ----

  lemma {:induction false} PlainCost(t: string)
    requires PlainText(t)
    ensures Cost(BACKSLASH, t) == 0
  {
    CostExactly(BACKSLASH, t);
    NoMarks(BACKSLASH, t);
  }

  lemma {:induction false} PlainPairsCost(ps: seq<ComponentParam>)
    requires forall p <- ps :: PlainParam(p)
    ensures ParamsCost(BACKSLASH, ParamPairs(ps)) == 0
  {
    hide Cost, PlainText;
    if ps != [] {
      var p, rest := ps[0], ps[1..];
      assert p in ps;
      PlainPairsCost(rest);
      assert ParamPairs(ps)[1..] == ParamPairs(rest);
      match p
      case Key(v) => PlainCost(v);
      case Name(v) => PlainCost(v);
      case _ =>
    }
  }

  lemma {:induction false} PlainIdsCost(ids: seq<ComponentId>)
    requires forall id <- ids :: PlainId(id)
    ensures ItemsCost(BACKSLASH, IdItems(ids)) == 0
  {
    hide Cost, PlainText, ParamsCost, PlainParam;
    if ids != [] {
      var id, rest := ids[0], ids[1..];
      assert id in ids;
      PlainIdsCost(rest);
      assert IdItems(ids)[1..] == IdItems(rest);
      PlainCost(NameText(id.name));
      PlainPairsCost(id.params);
    }
  }

  lemma {:induction false} PlainOptionCost(t: Option<string>)
    requires PlainOption(t)
    ensures OptionCost(t) == 0
  {
    if t.Some? { PlainCost(t.value); }
  }

  lemma {:induction false} PlainPrintsQuiet(p: SigParams)
    requires PlainParams(p)
    ensures '\\' !in PrintParams(p)
  {
    hide Marks, ItemsCost, OptionCost, PrintIds, PrintRest, PlainId, PlainOption, UnescapedId, PrintParams;
    PlainIdsCost(p.covered);
    PlainOptionCost(p.nonce);
    PlainOptionCost(p.alg);
    PlainOptionCost(p.keyid);
    PlainOptionCost(p.tag);
    IdsPrintCost(p.covered);
    RestPrintCost(p);
    PrintedBackslashes(p);
    NoMarks(BACKSLASH, PrintParams(p));
  }
}
