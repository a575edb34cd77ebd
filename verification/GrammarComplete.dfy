/** Everything in the grammar is accepted, with the value that it stands for. */
module GrammarComplete {
  import opened Wrappers
  import opened Text
  import opened StructuredFields
  import opened Grammar
  import GrammarSound
  import RT = StructuredFieldsRoundTrip
  import Base64
  import Utf8
  import Percent
  import OM = OrderedMap

  /** What follows a bare item. */
  predicate Stops(rest: string) {
    rest != "" ==> rest[0] in " \t,;)"
  }

  /** What follows parameters. */
  predicate Ends(rest: string) {
    rest != "" ==> rest[0] in " \t,)"
  }

  lemma {:induction false} StopChars(c: char)
    requires c in " \t,;)"
    ensures !IsDigit(c) && c != '.' && !TokenChar(c) && !KeyChar(c) && c != '='
  {
  }

  lemma {:induction false} SpacesSkipped(sp: string, t: string)
    requires Spaces(sp) && (t != "" ==> t[0] != ' ')
    ensures Skip(sp + t, IsSp) == t
  {
    var s := sp + t;
    forall i | 0 <= i < |sp| ensures IsSp(s[i]) { assert s[i] == sp[i] && sp[i] in sp; }
    RunIs(s, IsSp, |sp|);
  }

  lemma {:induction false} BlanksSkipped(w: string, t: string)
    requires Blanks(w) && (t != "" ==> t[0] != ' ' && t[0] != '\t')
    ensures Skip(w + t, IsOws) == t
  {
    var s := w + t;
    forall i | 0 <= i < |w| ensures IsOws(s[i]) { assert s[i] == w[i] && w[i] in w; }
    RunIs(s, IsOws, |w|);
  }

  lemma {:induction false} KeyReads(k: string, rest: string)
    requires Key(k) && (rest != "" ==> !KeyChar(rest[0]))
    ensures ParseKey(k + rest) == Some((k, rest))
  {
    hide ParseKey;
    forall c <- k ensures KeyChar(c) { }
    RT.KeyRead(k, rest);
  }

  // ---- Numbers ----

  lemma {:induction false} UnsignedReads(negative: bool, d: string, rest: string)
    requires 1 <= |d| <= 15 && Digits(d) && Stops(rest)
    ensures ParseUnsigned(negative, d + rest) == Some((Integer(Signed(negative, Num(d))), rest))
  {
    hide Run, DigitsValue, Num, Pow10, ValidBare, Digits, IsDigit;
    GrammarSound.NumIsValue(d);
    if rest != "" { StopChars(rest[0]); }
    RT.DigitsRead(d, rest);
    assert (d + rest)[|d|..] == rest;
  }

  lemma {:induction false} FractionReads(negative: bool, w: string, f: string, rest: string)
    requires 1 <= |w| <= 12 && Digits(w) && 1 <= |f| <= 3 && Digits(f) && Stops(rest)
    ensures ParseUnsigned(negative, w + "." + f + rest)
         == Some((Decimal(Signed(negative, Num(w) * 1000 + Thousandths(f))), rest))
  {
    hide Run, DigitsValue, Num, Pow10, ValidBare, Digits, IsDigit, FractionValue, Thousandths;
    GrammarSound.NumIsValue(w);
    GrammarSound.FractionIsThousandths(f);
    if rest != "" { StopChars(rest[0]); }
    RT.DigitsRead(f, rest);
    var s := w + "." + f + rest;
    assert s == w + ("." + (f + rest));
    assert !IsDigit('.') by { RT.DotIsNoDigit(); }
    RT.DigitsRead(w, "." + (f + rest));
    assert s[|w|] == '.' && s[|w| + 1..] == f + rest;
    assert (f + rest)[|f|..] == rest;
  }

  lemma {:induction false} SignReads(negative: bool, d: string)
    requires d != "" && '0' <= d[0] <= '9'
    ensures ParseBare(SignText(negative) + d) == ParseUnsigned(negative, d)
  {
    hide ParseUnsigned;
    var s := SignText(negative) + d;
    if negative {
      assert s[1..] == d;
    } else {
      assert s == d;
    }
  }

  lemma {:induction false} IntegerReads(p: string, n: int, rest: string)
    requires IntegerText(p, n) && Stops(rest)
    ensures ParseBare(p + rest) == Some((Integer(n), rest))
  {
    hide ParseBare, ParseUnsigned, Num, Stops, SignText;
    var negative: bool, d: string :|
      p == SignText(negative) + d && 1 <= |d| <= 15 && Digits(d) && n == Signed(negative, Num(d));
    assert d[0] in d && Digit(d[0]);
    assert p + rest == SignText(negative) + (d + rest);
    SignReads(negative, d + rest);
    UnsignedReads(negative, d, rest);
  }

  lemma {:induction false} DecimalApart(p: string, n: int) returns (negative: bool, w: string, f: string)
    requires DecimalText(p, n)
    ensures p == SignText(negative) + w + "." + f
    ensures 1 <= |w| <= 12 && Digits(w) && 1 <= |f| <= 3 && Digits(f)
    ensures n == Signed(negative, Num(w) * 1000 + Thousandths(f))
  {
    hide Num, SignText, Thousandths, Digits;
    negative, w, f :|
      && p == SignText(negative) + w + "." + f
      && 1 <= |w| <= 12 && Digits(w) && 1 <= |f| <= 3 && Digits(f)
      && n == Signed(negative, Num(w) * 1000 + Thousandths(f));
  }

  lemma {:induction false} FirstDigit(d: string)
    requires d != "" && Digits(d)
    ensures '0' <= d[0] <= '9'
  {
    assert d[0] in d && Digit(d[0]);
  }

  lemma {:induction false} DecimalReads(p: string, n: int, rest: string)
    requires DecimalText(p, n) && Stops(rest)
    ensures ParseBare(p + rest) == Some((Decimal(n), rest))
  {
    hide ParseBare, ParseUnsigned, Num, Stops, SignText, Thousandths, Digits, DecimalText, Signed;
    var negative, w, f := DecimalApart(p, n);
    FirstDigit(w);
    var d := w + "." + f + rest;
    assert d[0] == w[0];
    assert p + rest == SignText(negative) + d;
    SignReads(negative, d);
    FractionReads(negative, w, f, rest);
  }

  lemma {:induction false} DateReads(x: string, n: int, rest: string)
    requires IntegerText(x, n) && Stops(rest)
    ensures ParseDate(x + rest) == Some((Date(n), rest))
  {
    hide ParseUnsigned, Num, Stops;
    var negative: bool, d: string :|
      x == SignText(negative) + d && 1 <= |d| <= 15 && Digits(d) && n == Signed(negative, Num(d));
    assert d[0] in d && Digit(d[0]);
    UnsignedReads(negative, d, rest);
    if negative {
      assert (x + rest)[1..] == d + rest;
    } else {
      assert x + rest == d + rest;
    }
  }

  // ---- Strings ----

  lemma {:induction false} BodyReads(x: string, t: string, rest: string)
    requires Body(x, t)
    ensures ParseStringBody(x + "\"" + rest) == Some((t, rest))
    decreases |x|
  {
    var s := x + "\"" + rest;
    if x == "" {
      assert s[1..] == rest;
    } else if x[0] == '\\' {
      BodyReads(x[2..], t[1..], rest);
      assert s[2..] == x[2..] + "\"" + rest;
      assert s[1] == x[1] && t == [t[0]] + t[1..];
    } else {
      BodyReads(x[1..], t[1..], rest);
      assert s[1..] == x[1..] + "\"" + rest;
      assert t == [t[0]] + t[1..];
    }
  }

  lemma {:induction false} HexReads(c: char)
    requires Digit(c) || 'a' <= c <= 'f'
    ensures Percent.IsHex(c) && Percent.HexValue(c) == Nibble(c)
  {
  }

  lemma {:induction false} PercentReads(x: string, b: seq<byte>, rest: string)
    requires Bytes(x, b)
    ensures Percent.Read(x + "\"" + rest) == Some((b, rest))
    decreases |x|
  {
    hide Percent.IsHex, Percent.HexValue, Nibble;
    var s := x + "\"" + rest;
    if x == "" {
      assert s[1..] == rest;
    } else if x[0] == '%' {
      PercentReads(x[3..], b[1..], rest);
      assert s[3..] == x[3..] + "\"" + rest;
      assert x[1..3] == [x[1], x[2]] && x[1] in x[1..3] && x[2] in x[1..3];
      HexReads(x[1]);
      HexReads(x[2]);
      assert s[1] == x[1] && s[2] == x[2] && b == [b[0]] + b[1..];
    } else {
      PercentReads(x[1..], b[1..], rest);
      assert s[1..] == x[1..] + "\"" + rest;
      assert b == [b[0]] + b[1..];
    }
  }

  // ---- Bare items ----

  lemma {:induction false} StringReads(p: string, t: string, rest: string)
    requires StringText(p, t)
    ensures ParseBare(p + rest) == Some((String(t), rest))
  {
    hide ParseStringBody, Body, ValidBare;
    var x :| p == "\"" + x + "\"" && Body(x, t);
    BodyReads(x, t, rest);
    assert (p + rest)[1..] == x + "\"" + rest;
  }

  lemma {:induction false} BytesRead(p: string, v: seq<byte>, rest: string)
    requires BytesText(p, v)
    ensures ParseBare(p + rest) == Some((ByteSequence(v), rest))
  {
    hide SplitOnce, Base64.Decode;
    var x :| p == ":" + x + ":" && ':' !in x && Base64.Decode(x) == Some(v);
    assert (p + rest)[1..] == x + [':'] + rest;
    SplitOnceAt(x, ':', rest);
  }

  lemma {:induction false} DisplayReads(p: string, t: string, rest: string)
    requires DisplayText(p, t)
    ensures ParseBare(p + rest) == Some((DisplayString(t), rest))
  {
    hide Percent.Read, Utf8.Decode, Bytes;
    var x, b :| p == "%\"" + x + "\"" && Bytes(x, b) && Utf8.Decode(b) == Some(t);
    PercentReads(x, b, rest);
    var s := p + rest;
    assert s[1..] == "\"" + (x + "\"" + rest);
    assert s[1..][1..] == x + "\"" + rest;
  }

  lemma {:induction false} AtReads(p: string, n: int, rest: string)
    requires DateText(p, n) && Stops(rest)
    ensures ParseBare(p + rest) == Some((Date(n), rest))
  {
    hide ParseDate, IntegerText, Stops;
    var x :| p == "@" + x && IntegerText(x, n);
    DateReads(x, n, rest);
    assert (p + rest)[1..] == x + rest;
  }

  lemma {:induction false} TokenReads(t: string, rest: string)
    requires TokenText(t) && Stops(rest)
    ensures ParseBare(t + rest) == Some((Token(t), rest))
  {
    hide ParseBare, TokenChar;
    forall c <- t ensures TokenChar(c) { GrammarSound.TokenChars(c); }
    if rest != "" { StopChars(rest[0]); }
    RT.TokenRead(t, rest);
  }

  lemma {:induction false} BareReads(p: string, b: BareItem, rest: string)
    requires BareText(p, b) && Stops(rest)
    ensures ParseBare(p + rest) == Some((b, rest))
  {
    hide IntegerText, DecimalText, StringText, TokenText, BytesText, DateText, DisplayText, Stops;
    match b
    case Boolean(v) =>
      assert (p + rest)[2..] == rest;
    case _ =>
      hide ParseBare;
      match b {
        case Integer(n) => IntegerReads(p, n, rest);
        case Decimal(n) => DecimalReads(p, n, rest);
        case String(t) => StringReads(p, t, rest);
        case Token(t) => TokenReads(t, rest);
        case ByteSequence(v) => BytesRead(p, v, rest);
        case Date(n) => AtReads(p, n, rest);
        case DisplayString(t) => DisplayReads(p, t, rest);
        case Boolean(_) =>
      }
  }

  // ---- Parameters and items ----

  lemma {:induction false} ValueReads(x: string, v: BareItem, rest: string)
    requires ValueText(x, v) && Stops(rest)
    ensures ParseParamValue(x + rest) == Some((v, rest))
  {
    hide ParseBare, BareText;
    if x == "" {
      assert x + rest == rest;
      if rest != "" { StopChars(rest[0]); }
    } else {
      BareReads(x[1..], v, rest);
      assert (x + rest)[1..] == x[1..] + rest;
    }
  }

  lemma {:induction false} ParamReads(a: string, q: (string, BareItem), rest: string, acc: Parameters)
    requires ParamText(a, q) && Stops(rest)
    ensures ParseParams(a + rest, acc) == ParseParams(rest, OM.Put(acc, q.0, q.1))
  {
    hide ParseKey, ParseParamValue, ValueText, Skip, Stops;
    var sp, x :| a == ";" + sp + q.0 + x && Spaces(sp) && Key(q.0) && ValueText(x, q.1);
    var t := q.0 + (x + rest);
    assert (a + rest)[1..] == sp + t;
    assert t[0] == q.0[0] != ' ';
    SpacesSkipped(sp, t);
    AfterKey(x, q.1, rest);
    KeyReads(q.0, x + rest);
    ValueReads(x, q.1, rest);
  }

  lemma {:induction false} AfterKey(x: string, v: BareItem, rest: string)
    requires ValueText(x, v) && Stops(rest)
    ensures x + rest != "" ==> !KeyChar((x + rest)[0])
  {
    hide BareText;
    if x == "" {
      assert x + rest == rest;
      if rest != "" { StopChars(rest[0]); }
    } else {
      assert !KeyChar('=');
    }
  }

  lemma {:induction false} RawApart(p: string, raw: Parameters) returns (a: string, b: string)
    requires RawParams(p, raw) && raw != []
    ensures p == a + b && ParamText(a, raw[0]) && RawParams(b, raw[1..])
    ensures b != "" ==> b[0] == ';'
  {
    hide ParamText;
    a, b :| p == a + b && ParamText(a, raw[0]) && RawParams(b, raw[1..]);
    GrammarSound.RawStart(b, raw[1..]);
  }

  lemma {:induction false} BeforeParams(b: string, rest: string)
    requires Ends(rest) && (b != "" ==> b[0] == ';')
    ensures Stops(b + rest)
  {
    assert b + rest != "" ==> (b + rest)[0] == if b == "" then rest[0] else ';';
  }

  lemma {:induction false} NoParamsRead(rest: string, acc: Parameters)
    requires Ends(rest)
    ensures ParseParams(rest, acc) == Some((acc, rest))
  {
  }

  lemma {:induction false} PutAllCons(acc: Parameters, raw: Parameters)
    requires raw != []
    ensures OM.PutAll(acc, raw) == OM.PutAll(OM.Put(acc, raw[0].0, raw[0].1), raw[1..])
  {
  }

  lemma {:induction false} RawReads(p: string, raw: Parameters, rest: string, acc: Parameters)
    requires RawParams(p, raw) && Ends(rest)
    ensures ParseParams(p + rest, acc) == Some((OM.PutAll(acc, raw), rest))
    decreases raw
  {
    hide ParamText, OM.Put, ParseParams, Ends, Stops;
    if raw == [] {
      assert p + rest == rest;
      NoParamsRead(rest, acc);
    } else {
      var a, b := RawApart(p, raw);
      hide RawParams;
      BeforeParams(b, rest);
      ParamReads(a, raw[0], b + rest, acc);
      RawReads(b, raw[1..], rest, OM.Put(acc, raw[0].0, raw[0].1));
      PutAllCons(acc, raw);
      assert p + rest == a + (b + rest);
    }
  }

  lemma {:induction false} ParamsRead(p: string, ps: Parameters, rest: string)
    requires ParamsText(p, ps) && Ends(rest)
    ensures ParseParams(p + rest, []) == Some((ps, rest))
  {
    hide RawParams, ParseParams, OM.PutAll;
    var raw :| RawParams(p, raw) && ps == OM.PutAll([], raw);
    RawReads(p, raw, rest, []);
  }

  lemma {:induction false} AfterBare(b: string, ps: Parameters, rest: string)
    requires ParamsText(b, ps) && Ends(rest)
    ensures Stops(b + rest)
  {
    hide ParamsText;
    GrammarSound.ParamsNoEquals(b, ps);
    assert b + rest != "" ==> (b + rest)[0] == if b == "" then rest[0] else b[0];
  }

  lemma {:induction false} ItemReads(p: string, i: Item, rest: string)
    requires ItemText(p, i) && Ends(rest)
    ensures ParseItem(p + rest) == Some((i, rest))
  {
    hide ParseBare, ParseParams, BareText, ParamsText, Ends, Stops;
    var a, b :| p == a + b && BareText(a, i.bare) && ParamsText(b, i.params);
    AfterBare(b, i.params, rest);
    BareReads(a, i.bare, b + rest);
    ParamsRead(b, i.params, rest);
    assert p + rest == a + (b + rest);
  }

  /** No bare item starts with a delimiter. */
  lemma {:induction false} BareStarts(p: string, b: BareItem)
    requires BareText(p, b)
    ensures p != "" && p[0] !in " \t,;()="
  {
    hide Num, Body, Bytes;
    match b {
      case Integer(n) => NumberStarts(p);
      case Decimal(n) => NumberStarts(p);
      case Token(t) =>
      case _ =>
    }
  }

  lemma {:induction false} NumberStarts(p: string)
    requires (exists n :: IntegerText(p, n)) || exists n :: DecimalText(p, n)
    ensures p != "" && p[0] !in " \t,;()="
  {
    hide IntegerText, DecimalText;
    if n :| IntegerText(p, n) {
      IntegerStarts(p, n);
    } else {
      var n :| DecimalText(p, n);
      DecimalStarts(p, n);
    }
  }

  lemma {:induction false} IntegerStarts(p: string, n: int)
    requires IntegerText(p, n)
    ensures p != "" && p[0] !in " \t,;()="
  {
    hide Num;
    var negative: bool, d: string :|
      p == SignText(negative) + d && 1 <= |d| <= 15 && Digits(d) && n == Signed(negative, Num(d));
    SignedStarts(negative, d);
  }

  lemma {:induction false} DecimalStarts(p: string, n: int)
    requires DecimalText(p, n)
    ensures p != "" && p[0] !in " \t,;()="
  {
    hide Num, Thousandths, Signed, Digits;
    var negative: bool, w: string, f: string :|
      && p == SignText(negative) + w + "." + f
      && 1 <= |w| <= 12 && Digits(w) && 1 <= |f| <= 3 && Digits(f)
      && n == Signed(negative, Num(w) * 1000 + Thousandths(f));
    SignedStarts(negative, w);
  }

  lemma {:induction false} SignedStarts(negative: bool, w: string)
    requires w != "" && Digits(w)
    ensures (SignText(negative) + w)[0] !in " \t,;()="
  {
    assert Digit(w[0]);
    assert !negative ==> SignText(negative) + w == w;
  }

  lemma {:induction false} ItemStarts(p: string, i: Item)
    requires ItemText(p, i)
    ensures p != "" && p[0] !in " \t,;()="
  {
    hide BareText, ParamsText;
    var a, b :| p == a + b && BareText(a, i.bare) && ParamsText(b, i.params);
    BareStarts(a, i.bare);
  }

  lemma {:induction false} ItemsApart(p: string, items: seq<Item>) returns (sp: string, a: string, b: string)
    requires ItemsText(p, items) && items != []
    ensures p == sp + a + b && Spaces(sp) && ItemText(a, items[0]) && ItemsText(b, items[1..])
    ensures b != "" && (b[0] == ' ' || b[0] == ')') && a != "" && a[0] != ' ' && a[0] != ')'
  {
    hide ItemText, Spaces;
    sp, a, b :| p == sp + a + b && Spaces(sp) && ItemText(a, items[0]) && ItemsText(b, items[1..])
      && b != "" && (b[0] == ' ' || b[0] == ')');
    ItemStarts(a, items[0]);
  }

  lemma {:induction false} NoItemsRead(p: string, rest: string)
    requires ItemsText(p, [])
    ensures ParseItems(p + rest) == Some(([], rest))
  {
    hide Skip;
    var sp :| p == sp + ")" && Spaces(sp);
    SpacesSkipped(sp, ")" + rest);
    assert p + rest == sp + (")" + rest);
    assert (")" + rest)[1..] == rest;
  }

  /** One step of the parser. */
  lemma {:induction false} ItemsStep(s: string, i: Item, r: string)
    requires Skip(s, IsSp) != "" && Skip(s, IsSp)[0] != ')' && ParseItem(Skip(s, IsSp)) == Some((i, r))
    requires r != "" && (r[0] == ' ' || r[0] == ')') && ParseItems(r).Some?
    ensures ParseItems(s) == Some(([i] + ParseItems(r).value.0, ParseItems(r).value.1))
  {
    hide ParseItem, Skip;
  }

  lemma {:induction false} EndsItem(b: string, rest: string)
    requires b != "" && (b[0] == ' ' || b[0] == ')')
    ensures Ends(b + rest) && (b + rest)[0] == b[0]
  {
  }

  lemma {:induction false} Regroup(a: string, b: string, c: string, d: string)
    ensures a + b + c + d == a + (b + (c + d))
  {
  }

  lemma {:induction false} ItemsRead(p: string, items: seq<Item>, rest: string)
    requires ItemsText(p, items)
    ensures ParseItems(p + rest) == Some((items, rest))
    decreases items
  {
    hide ParseItem, ItemText, Skip, Spaces, ParseItems, Ends;
    if items == [] {
      NoItemsRead(p, rest);
    } else {
      var sp, a, b := ItemsApart(p, items);
      hide ItemsText;
      var r := b + rest;
      EndsItem(b, rest);
      Regroup(sp, a, b, rest);
      FirstOf(a, r);
      SpacesSkipped(sp, a + r);
      ItemReads(a, items[0], r);
      ItemsRead(b, items[1..], rest);
      ItemsStep(p + rest, items[0], r);
      assert items == [items[0]] + items[1..];
    }
  }

  lemma {:induction false} FirstOf(a: string, r: string)
    requires a != ""
    ensures a + r != "" && (a + r)[0] == a[0]
  {
  }

  lemma {:induction false} EntryReads(p: string, e: ListEntry, rest: string)
    requires EntryText(p, e) && Ends(rest)
    ensures ParseEntry(p + rest) == Some((e, rest)) && p != "" && p[0] !in " \t,;="
  {
    hide ParseItem, ParseItems, ParseParams, ItemText, ItemsText, ParamsText, Ends;
    match e
    case ItemEntry(i) =>
      ItemStarts(p, i);
      ItemReads(p, i, rest);
    case InnerEntry(l) =>
      var a, b :| p == "(" + a + b && ItemsText(a, l.items) && ParamsText(b, l.params);
      ItemsRead(a, l.items, b + rest);
      ParamsRead(b, l.params, rest);
      assert (p + rest)[1..] == a + (b + rest);
  }

  // ---- Members ----

  lemma {:induction false} TailReads(x: string, e: ListEntry, k: string, rest: string)
    requires Key(k) && TailText(x, e) && Ends(rest)
    ensures ParseMember(true, k + (x + rest)) == Some(((k, e), rest))
  {
    hide ParseEntry, ParseParams, ParseKey, EntryText, ParamsText, Ends, Key;
    AfterKeyOnly(x, e, rest);
    KeyReads(k, x + rest);
    if x != "" && x[0] == '=' {
      EntryReads(x[1..], e, rest);
      assert (x + rest)[1..] == x[1..] + rest;
    } else {
      ParamsRead(x, e.item.params, rest);
    }
  }

  lemma {:induction false} AfterKeyOnly(x: string, e: ListEntry, rest: string)
    requires TailText(x, e) && Ends(rest)
    ensures x + rest != "" ==> !KeyChar((x + rest)[0])
    ensures (x == "" || x[0] != '=') ==> !StartsWith(x + rest, '=')
  {
    hide EntryText, ParamsText;
    if x != "" && x[0] == '=' {
      assert !KeyChar('=');
    } else {
      GrammarSound.ParamsNoEquals(x, e.item.params);
      if x == "" {
        assert x + rest == rest;
        if rest != "" { StopChars(rest[0]); }
      } else {
        assert !KeyChar(';');
      }
    }
  }

  lemma {:induction false} MemberReads(asDict: bool, p: string, m: (string, ListEntry), rest: string)
    requires MemberText(asDict, p, m) && Ends(rest)
    ensures ParseMember(asDict, p + rest) == Some((m, rest)) && p != "" && p[0] !in " \t,"
  {
    hide ParseEntry, ParseParams, ParseKey, EntryText, TailText, Ends;
    if asDict {
      var x :| p == m.0 + x && Key(m.0) && TailText(x, m.1);
      hide ParseMember;
      TailReads(x, m.1, m.0, rest);
      assert p + rest == m.0 + (x + rest);
    } else {
      EntryReads(p, m.1, rest);
    }
  }

  lemma {:induction false} LastApart(asDict: bool, s: string, ms: seq<(string, ListEntry)>)
    returns (a: string, w: string)
    requires MembersText(asDict, s, ms) && |ms| == 1
    ensures s == a + w && MemberText(asDict, a, ms[0]) && Blanks(w) && Ends(w)
  {
    hide MemberText;
    a, w :| s == a + w && MemberText(asDict, a, ms[0]) && Blanks(w);
    assert w == "" || w[0] in w;
  }

  lemma {:induction false} MembersApart(asDict: bool, s: string, ms: seq<(string, ListEntry)>)
    returns (a: string, w: string, x: string, b: string)
    requires MembersText(asDict, s, ms) && |ms| > 1
    ensures s == a + w + "," + x + b && Blanks(w) && Blanks(x)
    ensures MemberText(asDict, a, ms[0]) && MembersText(asDict, b, ms[1..])
    ensures Ends(w)
  {
    hide MemberText;
    a, w, x, b :| s == a + w + "," + x + b && Blanks(w) && Blanks(x)
      && MemberText(asDict, a, ms[0]) && MembersText(asDict, b, ms[1..]);
    assert w == "" || w[0] in w;
  }

  lemma {:induction false} LastStep(asDict: bool, s: string, m: (string, ListEntry), r: string)
    requires s != "" && ParseMember(asDict, s) == Some((m, r)) && Skip(r, IsOws) == ""
    ensures ParseMembers(asDict, s) == Some([m])
  {
    hide ParseMember, Skip;
  }

  lemma {:induction false} MembersStep(asDict: bool, s: string, m: (string, ListEntry), r: string, x: string)
    requires s != "" && ParseMember(asDict, s) == Some((m, r)) && Skip(r, IsOws) == "," + x
    requires Skip(x, IsOws) != "" && ParseMembers(asDict, Skip(x, IsOws)).Some?
    ensures ParseMembers(asDict, s) == Some([m] + ParseMembers(asDict, Skip(x, IsOws)).value)
  {
    hide ParseMember, Skip;
    assert ("," + x)[1..] == x;
  }

  /** White space, or a comma behind it, ends a member. */
  lemma {:induction false} EndsMember(w: string, r: string)
    requires Ends(w) && (r == "" || r[0] == ',')
    ensures Ends(w + r)
  {
    assert w + r != "" ==> (w + r)[0] == if w == "" then ',' else w[0];
  }

  predicate Visible(s: string) {
    s != "" && s[0] != ' ' && s[0] != '\t' && s[0] != ','
  }

  lemma {:induction false} MemberStarts(asDict: bool, p: string, m: (string, ListEntry))
    requires MemberText(asDict, p, m)
    ensures Visible(p)
  {
    hide MemberText, ParseMember;
    MemberReads(asDict, p, m, "");
  }

  lemma {:induction false} MembersRead(asDict: bool, s: string, ms: seq<(string, ListEntry)>)
    requires MembersText(asDict, s, ms)
    ensures ParseMembers(asDict, s) == Some(ms) && Visible(s)
    decreases ms
  {
    hide ParseMember, MemberText, Skip, Blanks, Ends, ParseMembers;
    assert ms != [];
    if |ms| == 1 {
      var a, w := LastApart(asDict, s, ms);
      hide MembersText;
      MemberStarts(asDict, a, ms[0]);
      FirstOf(a, w);
      MemberReads(asDict, a, ms[0], w);
      BlanksSkipped(w, "");
      assert w + "" == w;
      LastStep(asDict, s, ms[0], w);
      assert ms == [ms[0]];
    } else {
      var a, w, x, b := MembersApart(asDict, s, ms);
      hide MembersText;
      MembersRead(asDict, b, ms[1..]);
      var r := "," + (x + b);
      EndsMember(w, r);
      assert s == a + (w + r) by { Regroup5(a, w, ",", x, b); }
      MemberStarts(asDict, a, ms[0]);
      FirstOf(a, w + r);
      MemberReads(asDict, a, ms[0], w + r);
      BlanksSkipped(w, r);
      BlanksSkipped(x, b);
      MembersStep(asDict, s, ms[0], w + r, x + b);
      assert ms == [ms[0]] + ms[1..];
    }
  }

  lemma {:induction false} Regroup5(a: string, b: string, c: string, d: string, e: string)
    ensures a + b + c + d + e == a + (b + (c + (d + e)))
  {
  }

  // ---- Whole fields: exactly the grammar ----

  /** The list parser accepts exactly the lists of the grammar, with their values. */
  lemma {:induction false} ListExactly(s: string, l: List)
    ensures ParseList(s) == Some(l) <==> ListText(s, l)
  {
    hide MembersText, ParseMembers, Skip;
    if ParseList(s) == Some(l) { GrammarSound.ListSpelled(s); }
    if ListText(s, l) {
      var sp, t :| s == sp + t && Spaces(sp) && if l == [] then t == "" else MembersText(false, t, AsMembers(l));
      if l != [] { MembersRead(false, t, AsMembers(l)); } else { NoMembers(false); }
      SpacesSkipped(sp, t);
      assert Entries(AsMembers(l)) == l;
    }
  }

  lemma {:induction false} NoMembers(asDict: bool)
    ensures ParseMembers(asDict, "") == Some([])
  {
  }

  /** The dictionary parser accepts exactly the dictionaries of the grammar; of a repeated key the last
      value counts. */
  lemma {:induction false} DictionaryExactly(s: string, d: Dictionary)
    ensures ParseDictionary(s) == Some(d) <==> DictionaryText(s, d)
  {
    hide MembersText, ParseMembers, Skip, OM.PutAll;
    if ParseDictionary(s) == Some(d) { GrammarSound.DictionarySpelled(s); }
    if DictionaryText(s, d) {
      var sp, t, raw :| s == sp + t && Spaces(sp) && d == OM.PutAll([], raw)
        && if raw == [] then t == "" else MembersText(true, t, raw);
      if raw != [] { MembersRead(true, t, raw); } else { NoMembers(true); }
      SpacesSkipped(sp, t);
    }
  }

  /** The item parser accepts exactly the items of the grammar. */
  lemma {:induction false} ItemExactly(s: string, i: Item)
    ensures ParseItemField(s) == Some(i) <==> ItemFieldText(s, i)
  {
    hide ParseItem, ItemText, Skip;
    if ParseItemField(s) == Some(i) { GrammarSound.ItemFieldSpelled(s); }
    if ItemFieldText(s, i) {
      var a, t, b :| s == a + t + b && Spaces(a) && ItemText(t, i) && Spaces(b);
      ItemStarts(t, i);
      assert s == a + (t + b);
      assert (t + b)[0] == t[0];
      SpacesSkipped(a, t + b);
      assert b == "" || b[0] in b;
      ItemReads(t, i, b);
      SpacesSkipped(b, "");
      assert b + "" == b;
    }
  }
}
