/** Parsing a serialised structured field gives back the value, and everything parsed can be
    serialised: together, serialising a parse is a canonical form. */
module StructuredFieldsRoundTrip {
  import opened Wrappers
  import opened Text
  import opened StructuredFields
  import Base64
  import Utf8
  import Percent
  import OM = OrderedMap

  /** What may follow a bare item without being read as part of it. */
  predicate Closes(b: BareItem, rest: string) {
    rest != "" ==>
      match b
      case Integer(_) => !IsDigit(rest[0]) && rest[0] != '.'
      case Decimal(_) => !IsDigit(rest[0])
      case Token(_) => !TokenChar(rest[0])
      case Date(_) => !IsDigit(rest[0]) && rest[0] != '.'
      case _ => true
  }

  /** What may follow parameters without being read as part of them. */
  predicate ClosesParams(ps: Parameters, rest: string) {
    && (forall p <- ps :: Closes(p.1, rest))
    && (rest != "" ==> rest[0] != ';' && rest[0] != '=' && !KeyChar(rest[0]))
  }

  /** The delimiters that close every item. */
  predicate Delimited(rest: string) {
    rest != "" ==> rest[0] == ' ' || rest[0] == '\t' || rest[0] == ',' || rest[0] == ')'
  }

  lemma {:induction false} SkipNothing(s: string, p: char -> bool)
    requires s != "" ==> !p(s[0])
    ensures Skip(s, p) == s
  {
    RunIs(s, p, 0);
  }

  lemma {:induction false} KeyRead(k: string, rest: string)
    requires ValidKey(k)
    requires rest != "" ==> !KeyChar(rest[0])
    ensures ParseKey(k + rest) == Some((k, rest))
  {
    var s := k + rest;
    assert forall i | 0 <= i < |k| :: s[i] == k[i];
    RunIs(s, KeyChar, |k|);
    assert s[..|k|] == k && s[|k|..] == rest;
  }

  lemma {:induction false} StringRead(t: string, rest: string)
    requires forall c <- t :: IsPrintable(c)
    ensures ParseStringBody(Escape(t) + "\"" + rest) == Some((t, rest))
  {
    var s := Escape(t) + "\"" + rest;
    if t == "" {
      assert s[1..] == rest;
    } else {
      StringRead(t[1..], rest);
      var head := if t[0] == '"' || t[0] == '\\' then ['\\', t[0]] else [t[0]];
      assert Escape(t) == head + Escape(t[1..]);
      assert s == head + (Escape(t[1..]) + "\"" + rest);
      assert s[|head|..] == Escape(t[1..]) + "\"" + rest;
      assert t == [t[0]] + t[1..];
      assert IsPrintable(t[0]);
    }
  }

  lemma {:induction false} IntegerRead(negative: bool, n: nat, rest: string)
    requires n <= MAX_INTEGER
    requires Closes(Integer(n), rest)
    ensures ParseUnsigned(negative, PrintNat(n) + rest) == Some((Integer(if negative then -(n as int) else n), rest))
  {
    hide PrintNat, DigitsValue, Pow10;
    DigitsRead(PrintNat(n), rest);
    DigitsOfNat(n);
    PowersOfTen();
    PrintNatLength(n, 15);
  }

  lemma {:induction false} FractionRead(f: nat)
    requires f < 1000
    ensures 1 <= |SerFraction(f)| <= 3
    ensures forall c <- SerFraction(f) :: IsDigit(c)
    ensures FractionValue(SerFraction(f)) == f
  {
    var x, y, z := f / 100, f / 10 % 10, f % 10;
    assert f == 100 * x + 10 * y + z;
    assert f % 100 == 10 * y + z;
  }

  /** Reading a run of digits that something else follows. */
  lemma {:induction false} DigitsRead(d: string, rest: string)
    requires forall c <- d :: IsDigit(c)
    requires rest != "" ==> !IsDigit(rest[0])
    ensures Run(d + rest, IsDigit) == |d|
    ensures (d + rest)[..|d|] == d && (d + rest)[|d|..] == rest
  {
    var s := d + rest;
    assert forall i | 0 <= i < |d| :: s[i] == d[i] && d[i] in d;
    RunIs(s, IsDigit, |d|);
  }

  lemma {:induction false} DecimalRead(negative: bool, d: nat, rest: string)
    requires d <= MAX_INTEGER
    requires Closes(Decimal(d), rest)
    ensures ParseUnsigned(negative, PrintNat(d / 1000) + ("." + (SerFraction(d % 1000) + rest)))
         == Some((Decimal(if negative then -(d as int) else d), rest))
  {
    hide Run, PrintNat, SerFraction, DigitsValue, FractionValue, Pow10, IsDigit;
    var w, f := PrintNat(d / 1000), SerFraction(d % 1000);
    var s := w + ("." + (f + rest));
    assert !IsDigit('.') by { DotIsNoDigit(); }
    DigitsRead(w, "." + (f + rest));
    FractionRead(d % 1000);
    DigitsRead(f, rest);
    assert s[|w| + 1..] == f + rest;
    assert s[|w|] == '.';
    DigitsOfNat(d / 1000);
    PowersOfTen();
    PrintNatLength(d / 1000, 12);
  }

  lemma {:induction false} DotIsNoDigit()
    ensures !IsDigit('.')
  {
  }

  /** No serialised bare item starts with a delimiter. */
  lemma {:induction false} BareStart(b: BareItem)
    requires ValidBare(b)
    ensures SerBare(b) != ""
    ensures SerBare(b)[0] !in " \t,();="
  {
    hide PrintNat, SerFraction, Escape, Base64.Encode, Percent.Encode, Utf8.Encode;
    match b
    case Integer(i) => DigitFirst(Sign(i), Abs(i));
    case Decimal(d) => DigitFirst(Sign(d), Abs(d) / 1000);
    case _ =>
  }

  lemma {:induction false} DigitFirst(sign: string, n: nat)
    requires sign == "" || sign == "-"
    ensures (sign + PrintNat(n))[0] == if sign == "-" then '-' else PrintNat(n)[0]
    ensures IsDigit(PrintNat(n)[0])
  {
    assert PrintNat(n)[0] in PrintNat(n);
  }

  lemma {:induction false} SignedIntegerRead(i: int, rest: string)
    requires ValidBare(Integer(i)) && Closes(Integer(i), rest)
    ensures ParseBare(SerBare(Integer(i)) + rest) == Some((Integer(i), rest))
  {
    hide ParseUnsigned, ParseBare, PrintNat;
    IntegerRead(i < 0, Abs(i), rest);
    SignRead(i, PrintNat(Abs(i)), rest);
    assert SerBare(Integer(i)) == Sign(i) + PrintNat(Abs(i));
  }

  lemma {:induction false} SignedDecimalRead(d: int, rest: string)
    requires ValidBare(Decimal(d)) && Closes(Decimal(d), rest)
    ensures ParseBare(SerBare(Decimal(d)) + rest) == Some((Decimal(d), rest))
  {
    hide ParseUnsigned, ParseBare, PrintNat, SerFraction;
    var w, f := PrintNat(Abs(d) / 1000), SerFraction(Abs(d) % 1000);
    DecimalRead(d < 0, Abs(d), rest);
    SignRead(d, w, "." + (f + rest));
    assert SerBare(Decimal(d)) + rest == Sign(d) + w + ("." + (f + rest));
  }

  lemma {:induction false} SignRead(n: int, digits: string, rest: string)
    requires digits != "" && forall c <- digits :: IsDigit(c)
    ensures ParseBare(Sign(n) + digits + rest) == ParseUnsigned(n < 0, digits + rest)
  {
    hide ParseUnsigned;
    var s := Sign(n) + digits + rest;
    assert digits[0] in digits;
    if n < 0 {
      assert s[1..] == digits + rest;
    } else {
      assert s == digits + rest;
      assert s[0] == digits[0];
    }
  }

  lemma {:induction false} SignedDateRead(i: int, rest: string)
    requires ValidBare(Date(i)) && Closes(Date(i), rest)
    ensures ParseDate(Sign(i) + PrintNat(Abs(i)) + rest) == Some((Date(i), rest))
  {
    hide ParseUnsigned, PrintNat;
    IntegerRead(i < 0, Abs(i), rest);
    var digits := PrintNat(Abs(i));
    assert digits[0] in digits;
    var u := Sign(i) + digits + rest;
    if i < 0 {
      assert u[0] == '-' && u[1..] == digits + rest;
    } else {
      assert u == digits + rest && u[0] == digits[0];
    }
  }

  lemma {:induction false} DateRead(i: int, rest: string)
    requires ValidBare(Date(i)) && Closes(Date(i), rest)
    ensures ParseBare(SerBare(Date(i)) + rest) == Some((Date(i), rest))
  {
    hide ParseDate, PrintNat, Sign, Abs, ValidBare, Closes;
    SignedDateRead(i, rest);
    var s := SerBare(Date(i)) + rest;
    assert s[0] == '@' && s[1..] == Sign(i) + PrintNat(Abs(i)) + rest;
  }

  lemma {:induction false} DisplayRead(t: string, rest: string)
    ensures ParseBare(SerBare(DisplayString(t)) + rest) == Some((DisplayString(t), rest))
  {
    hide Percent.Read, Percent.Encode, Utf8.Encode, Utf8.Decode;
    var body := Percent.Encode(Utf8.Encode(t)) + "\"" + rest;
    var s := SerBare(DisplayString(t)) + rest;
    assert s[0] == '%' && s[1..] == "\"" + body;
    assert ("\"" + body)[1..] == body;
    Percent.ReadEncode(Utf8.Encode(t), rest);
    Utf8.DecodeEncode(t);
  }

  lemma {:induction false} TokenRead(t: string, rest: string)
    requires ValidToken(t) && Closes(Token(t), rest)
    ensures ParseBare(t + rest) == Some((Token(t), rest))
  {
    hide ParseUnsigned, ParseStringBody;
    var s := t + rest;
    assert s[0] == t[0];
    assert forall i | 0 <= i < |t| :: s[i] == t[i];
    RunIs(s, TokenChar, |t|);
    assert s[..|t|] == t && s[|t|..] == rest;
  }

  lemma {:induction false} BareRead(b: BareItem, rest: string)
    requires ValidBare(b) && Closes(b, rest)
    ensures ParseBare(SerBare(b) + rest) == Some((b, rest))
  {
    hide ParseUnsigned, ParseStringBody, Escape, Base64.Encode, Base64.Decode, SplitOnce;
    var s := SerBare(b) + rest;
    match b
    case String(t) =>
      StringRead(t, rest);
      assert s[1..] == Escape(t) + "\"" + rest;
    case Token(t) =>
      TokenRead(t, rest);
    case ByteSequence(b) =>
      Base64.EncodeAlphabet(b);
      Base64.DecodeEncode(b);
      assert ':' !in Base64.Encode(b);
      assert s[1..] == Base64.Encode(b) + [':'] + rest;
      SplitOnceAt(Base64.Encode(b), ':', rest);
    case Boolean(v) =>
      assert s[2..] == rest;
    case Integer(i) =>
      SignedIntegerRead(i, rest);
    case Date(i) =>
      DateRead(i, rest);
    case DisplayString(t) =>
      DisplayRead(t, rest);
    case Decimal(d) =>
      SignedDecimalRead(d, rest);
  }

  lemma {:induction false} ParamValueRead(p: (string, BareItem), rest: string)
    requires ValidBare(p.1) && Closes(p.1, rest)
    requires rest != "" ==> rest[0] != '='
    ensures ParseParamValue((if p.1 == Boolean(true) then "" else "=" + SerBare(p.1)) + rest) == Some((p.1, rest))
  {
    hide SerBare, ValidBare, ParseBare, Closes;
    if p.1 == Boolean(true) {
      assert "" + rest == rest;
    } else {
      BareRead(p.1, rest);
      var s := "=" + SerBare(p.1) + rest;
      assert s[1..] == SerBare(p.1) + rest;
    }
  }

  /** Reading one serialised parameter. */
  lemma {:induction false} ParamRead(p: (string, BareItem), tail: string, acc: Parameters)
    requires ValidKey(p.0) && ValidBare(p.1) && Closes(p.1, tail)
    requires tail != "" ==> tail[0] != '=' && !KeyChar(tail[0])
    ensures ParseParams(SerParam(p) + tail, acc) == ParseParams(tail, OM.Put(acc, p.0, p.1))
  {
    hide SerBare, ValidBare, Closes, ParseKey, ParseParamValue;
    var value := if p.1 == Boolean(true) then "" else "=" + SerBare(p.1);
    var s := SerParam(p) + tail;
    assert s == ";" + (p.0 + (value + tail));
    assert s[1..] == p.0 + (value + tail);
    SkipNothing(s[1..], IsSp);
    KeyRead(p.0, value + tail);
    ParamValueRead(p, tail);
  }

  lemma {:induction false} ParamsRead(ps: Parameters, rest: string, acc: Parameters)
    requires forall p <- ps :: ValidKey(p.0) && ValidBare(p.1)
    requires ClosesParams(ps, rest)
    ensures ParseParams(SerParams(ps) + rest, acc) == Some((OM.PutAll(acc, ps), rest))
    decreases ps
  {
    hide SerBare, SerParam, ValidKey, ValidBare, Closes, ParseKey, ParseParamValue;
    if ps == [] {
      assert SerParams(ps) + rest == rest;
    } else {
      var p := ps[0];
      assert p in ps;
      var tail := SerParams(ps[1..]) + rest;
      assert SerParams(ps) + rest == SerParam(p) + tail;
      ParamsStart(ps[1..], rest);
      ClosesBefore(p.1, rest, tail);
      ParamRead(p, tail, acc);
      ParamsRead(ps[1..], rest, OM.Put(acc, p.0, p.1));
    }
  }

  /** Serialised parameters are empty or start with a semicolon. */
  lemma {:induction false} ParamsStart(ps: Parameters, rest: string)
    ensures ps != [] ==> SerParams(ps) + rest != "" && (SerParams(ps) + rest)[0] == ';'
    ensures ps == [] ==> SerParams(ps) + rest == rest
  {
  }

  lemma {:induction false} ClosesBefore(b: BareItem, rest: string, tail: string)
    requires Closes(b, rest)
    requires tail == rest || (tail != "" && tail[0] == ';')
    ensures Closes(b, tail)
  {
  }

  lemma {:induction false} ItemRead(i: Item, rest: string)
    requires ValidItem(i) && ClosesParams(i.params, rest) && Closes(i.bare, rest)
    ensures ParseItem(SerItem(i) + rest) == Some((i, rest))
  {
    var tail := SerParams(i.params) + rest;
    assert SerItem(i) + rest == SerBare(i.bare) + tail;
    assert tail != "" ==> tail[0] == ';' || tail == rest;
    BareRead(i.bare, tail);
    ParamsRead(i.params, rest, []);
    OM.PutAllFresh([], i.params);
    assert [] + i.params == i.params;
  }

  lemma {:induction false} SkipSpace(t: string, p: char -> bool)
    requires p(' ')
    requires t != "" ==> !p(t[0])
    ensures Skip(" " + t, p) == t
  {
    assert (" " + t)[1..] == t;
    RunIs(" " + t, p, 1);
  }

  /** A leading space is skipped. */
  lemma {:induction false} ItemsAfterSpace(t: string)
    requires t != "" && t[0] != ' '
    ensures ParseItems(" " + t) == ParseItems(t)
  {
    hide Skip, ParseItem;
    SkipSpace(t, IsSp);
    SkipNothing(t, IsSp);
  }

  /** Reading one serialised item of an inner list. */
  lemma {:induction false} InnerItemRead(i: Item, tail: string)
    requires ValidItem(i) && tail != "" && (tail[0] == ' ' || tail[0] == ')')
    requires ParseItems(tail).Some?
    ensures ParseItems(SerItem(i) + tail) == Some(([i] + ParseItems(tail).value.0, ParseItems(tail).value.1))
  {
    hide ParseItem, SerBare, SerParams, ValidBare;
    var s := SerItem(i) + tail;
    BareStart(i.bare);
    assert s[0] == SerBare(i.bare)[0];
    SkipNothing(s, IsSp);
    DelimitedCloses(i, tail);
    ItemRead(i, tail);
  }

  lemma {:induction false} DelimitedCloses(i: Item, rest: string)
    requires Delimited(rest)
    ensures ClosesParams(i.params, rest) && Closes(i.bare, rest)
  {
  }

  lemma {:induction false} ItemsRead(items: seq<Item>, rest: string)
    requires forall i <- items :: ValidItem(i)
    ensures ParseItems(SerItems(items) + (")" + rest)) == Some((items, rest))
    ensures items != [] ==> SerItems(items) != "" && SerItems(items)[0] != ' '
    decreases items
  {
    hide Run, Skip, ParseItem, SerItem, ValidItem;
    var s := SerItems(items) + (")" + rest);
    if items == [] {
      assert s == ")" + rest;
      SkipNothing(s, IsSp);
      assert s[1..] == rest;
    } else {
      var i := items[0];
      assert i in items;
      ItemStart(i);
      ItemsRead(items[1..], rest);
      assert items == [i] + items[1..];
      if |items| == 1 {
        assert SerItems(items[1..]) + (")" + rest) == ")" + rest;
        InnerItemRead(i, ")" + rest);
      } else {
        var tail := SerItems(items[1..]) + (")" + rest);
        ItemsTailStart(items[1..], rest);
        ItemsAfterSpace(tail);
        InnerItemRead(i, " " + tail);
        assert s == SerItem(i) + (" " + tail);
      }
    }
  }

  lemma {:induction false} ItemsTailStart(items: seq<Item>, rest: string)
    requires items != [] && SerItems(items) != "" && SerItems(items)[0] != ' '
    ensures (SerItems(items) + (")" + rest))[0] != ' '
  {
  }

  lemma {:induction false} ItemStart(i: Item)
    requires ValidItem(i)
    ensures SerItem(i) != "" && SerItem(i)[0] !in " \t,();="
  {
    BareStart(i.bare);
    assert SerItem(i)[0] == SerBare(i.bare)[0];
  }

  lemma {:induction false} InnerRead(l: InnerList, rest: string)
    requires ValidInner(l) && Delimited(rest)
    ensures ParseEntry(SerInner(l) + rest) == Some((InnerEntry(l), rest))
  {
    hide ParseItems, ParseParams, ParseItem, SerItems, SerParams, ValidItem, ValidBare, ValidKey;
    var s := SerInner(l) + rest;
    var tail := SerParams(l.params) + rest;
    assert s[1..] == SerItems(l.items) + (")" + tail);
    ItemsRead(l.items, tail);
    DelimitedCloses(Item(Boolean(true), l.params), rest);
    ParamsRead(l.params, rest, []);
    OM.PutAllFresh([], l.params);
    assert [] + l.params == l.params;
  }

  lemma {:induction false} EntryRead(e: ListEntry, rest: string)
    requires ValidEntry(e) && Delimited(rest)
    ensures ParseEntry(SerEntry(e) + rest) == Some((e, rest))
    ensures SerEntry(e) != "" && SerEntry(e)[0] !in " \t,;="
  {
    hide ParseItem, SerItem, ParseItems, ParseParams, ValidItem;
    match e
    case ItemEntry(i) =>
      ItemStart(i);
      assert (SerItem(i) + rest)[0] == SerItem(i)[0];
      DelimitedCloses(i, rest);
      ItemRead(i, rest);
    case InnerEntry(l) =>
      InnerRead(l, rest);
  }

  ghost predicate ValidMember(asDict: bool, m: (string, ListEntry)) {
    ValidEntry(m.1) && if asDict then ValidKey(m.0) else m.0 == ""
  }

  lemma {:induction false} NotKeyChars()
    ensures !KeyChar(';') && !KeyChar('=') && !KeyChar(' ') && !KeyChar('\t') && !KeyChar(',') && !KeyChar(')')
  {
  }

  lemma {:induction false} FlagRead(k: string, ps: Parameters, rest: string)
    requires ValidKey(k) && ValidParams(ps) && Delimited(rest)
    ensures ParseMember(true, k + SerParams(ps) + rest) == Some(((k, ItemEntry(Item(Boolean(true), ps))), rest))
  {
    hide ParseKey, ParseParams, ParseEntry, ValidKey, ValidBare, SerParams, Closes;
    var tail := SerParams(ps) + rest;
    assert k + SerParams(ps) + rest == k + tail;
    ParamsStart(ps, rest);
    NotKeyChars();
    KeyRead(k, tail);
    DelimitedCloses(Item(Boolean(true), ps), rest);
    ParamsRead(ps, rest, []);
    OM.PutAllFresh([], ps);
    assert [] + ps == ps;
  }

  lemma {:induction false} KeyedRead(k: string, e: ListEntry, rest: string)
    requires ValidKey(k) && ValidEntry(e) && Delimited(rest)
    ensures ParseMember(true, k + "=" + SerEntry(e) + rest) == Some(((k, e), rest))
  {
    hide ParseKey, ParseParams, ParseEntry, SerEntry, ValidKey, ValidEntry;
    var tail := "=" + (SerEntry(e) + rest);
    assert k + "=" + SerEntry(e) + rest == k + tail;
    assert !KeyChar('=');
    KeyRead(k, tail);
    assert tail[1..] == SerEntry(e) + rest;
    EntryRead(e, rest);
  }

  lemma {:induction false} MemberRead(asDict: bool, m: (string, ListEntry), rest: string)
    requires ValidMember(asDict, m) && Delimited(rest)
    ensures ParseMember(asDict, SerMember(asDict, m) + rest) == Some((m, rest))
    ensures SerMember(asDict, m) != "" && SerMember(asDict, m)[0] !in " \t,"
  {
    hide ParseKey, ParseParams, ParseEntry, SerEntry, SerParams;
    if !asDict {
      EntryRead(m.1, rest);
    } else if m.1.ItemEntry? && m.1.item.bare == Boolean(true) {
      FlagRead(m.0, m.1.item.params, rest);
    } else {
      KeyedRead(m.0, m.1, rest);
    }
  }

  /** Reading one serialised member that is followed by others. */
  lemma {:induction false} MembersStep(asDict: bool, m: (string, ListEntry), tail: string)
    requires ValidMember(asDict, m)
    requires tail != "" && tail[0] !in " \t,"
    requires ParseMembers(asDict, tail).Some?
    ensures ParseMembers(asDict, SerMember(asDict, m) + ", " + tail)
         == Some([m] + ParseMembers(asDict, tail).value)
  {
    hide ParseMember, SerMember, ValidMember;
    var rest := ", " + tail;
    assert SerMember(asDict, m) + ", " + tail == SerMember(asDict, m) + rest;
    MemberRead(asDict, m, rest);
    SkipNothing(rest, IsOws);
    assert rest[1..] == " " + tail;
    SkipSpace(tail, IsOws);
  }

  lemma {:induction false} MembersRead(asDict: bool, ms: seq<(string, ListEntry)>)
    requires forall m <- ms :: ValidMember(asDict, m)
    ensures ParseMembers(asDict, SerMembers(asDict, ms)) == Some(ms)
    ensures ms != [] ==> SerMembers(asDict, ms) != "" && SerMembers(asDict, ms)[0] !in " \t,"
    decreases ms
  {
    hide ParseMember, SerMember, ValidMember;
    if ms != [] {
      var m := ms[0];
      assert m in ms;
      if |ms| == 1 {
        MemberRead(asDict, m, "");
        assert SerMember(asDict, m) + "" == SerMember(asDict, m);
        SkipNothing("", IsOws);
        assert ms == [m];
      } else {
        MemberRead(asDict, m, "");
        MembersRead(asDict, ms[1..]);
        MembersStep(asDict, m, SerMembers(asDict, ms[1..]));
        assert ms == [m] + ms[1..];
      }
    }
  }

  /** Parsing a serialised list gives back the list. */
  lemma {:induction false} ListRoundTrip(l: List)
    requires ValidList(l) && l != []
    ensures ParseList(SerList(l).value) == Some(l)
  {
    var ms := AsMembers(l);
    assert forall m <- ms :: ValidMember(false, m);
    MembersRead(false, ms);
    SkipNothing(SerMembers(false, ms), IsSp);
    assert Entries(ms) == l;
  }

  /** Parsing a serialised dictionary gives back the dictionary. */
  lemma {:induction false} DictionaryRoundTrip(d: Dictionary)
    requires ValidDictionary(d) && d != []
    ensures ParseDictionary(SerDictionary(d).value) == Some(d)
  {
    assert forall m <- d :: ValidMember(true, m);
    MembersRead(true, d);
    SkipNothing(SerMembers(true, d), IsSp);
    OM.PutAllFresh([], d);
    assert [] + d == d;
  }

  // ---- Everything parsed is valid ----

  lemma {:induction false} ParsedParams(s: string, acc: Parameters)
    requires ParseParams(s, acc).Some? && ValidParams(acc)
    ensures ValidParams(ParseParams(s, acc).value.0)
    decreases |s|
  {
    if StartsWith(s, ';') {
      var k := ParseKey(Skip(s[1..], IsSp)).value;
      var v := ParseParamValue(k.1).value;
      ParamsPut(acc, k.0, v.0);
      ParsedParams(v.1, OM.Put(acc, k.0, v.0));
    }
  }

  lemma {:induction false} ParamsPut(acc: Parameters, k: string, v: BareItem)
    requires ValidParams(acc) && ValidKey(k) && ValidBare(v)
    ensures ValidParams(OM.Put(acc, k, v))
  {
    OM.PutUnique(acc, k, v);
    if OM.HasKey(acc, k) {
      OM.PutAt(acc, k, v, OM.IndexOf(acc, k));
    }
  }

  lemma {:induction false} ParsedItem(s: string)
    requires ParseItem(s).Some?
    ensures ValidItem(ParseItem(s).value.0)
  {
    ParsedParams(ParseBare(s).value.1, []);
  }

  lemma {:induction false} ParsedItems(s: string)
    requires ParseItems(s).Some?
    ensures forall i <- ParseItems(s).value.0 :: ValidItem(i)
    decreases |s|
  {
    var t := Skip(s, IsSp);
    if t[0] != ')' {
      ParsedItem(t);
      ParsedItems(ParseItem(t).value.1);
    }
  }

  lemma {:induction false} ParsedEntry(s: string)
    requires ParseEntry(s).Some?
    ensures ValidEntry(ParseEntry(s).value.0)
  {
    if StartsWith(s, '(') {
      ParsedItems(s[1..]);
      ParsedParams(ParseItems(s[1..]).value.1, []);
    } else {
      ParsedItem(s);
    }
  }

  lemma {:induction false} ParsedMember(asDict: bool, s: string)
    requires ParseMember(asDict, s).Some?
    ensures ValidMember(asDict, ParseMember(asDict, s).value.0)
  {
    if !asDict {
      ParsedEntry(s);
    } else {
      var k := ParseKey(s).value;
      if StartsWith(k.1, '=') {
        ParsedEntry(k.1[1..]);
      } else {
        ParsedParams(k.1, []);
      }
    }
  }

  lemma {:induction false} ParsedMembers(asDict: bool, s: string)
    requires ParseMembers(asDict, s).Some?
    ensures forall m <- ParseMembers(asDict, s).value :: ValidMember(asDict, m)
    ensures ParseMembers(asDict, s).value == [] <==> s == ""
    decreases |s|
  {
    if s != "" {
      ParsedMember(asDict, s);
      var m := ParseMember(asDict, s).value;
      var r := Skip(m.1, IsOws);
      if r != "" {
        ParsedMembers(asDict, Skip(r[1..], IsOws));
      }
    }
  }

  lemma {:induction false} ParsedList(s: string)
    requires ParseList(s).Some?
    ensures ValidList(ParseList(s).value)
    ensures ParseList(s).value == [] <==> Skip(s, IsSp) == ""
  {
    hide ParseMembers, ValidEntry;
    ParsedMembers(false, Skip(s, IsSp));
    var ms := ParseMembers(false, Skip(s, IsSp)).value;
    assert forall i | 0 <= i < |ms| :: ms[i] in ms;
  }

  lemma {:induction false} PutAllValid(d: Dictionary, ms: seq<(string, ListEntry)>)
    requires ValidDictionary(d) && forall m <- ms :: ValidMember(true, m)
    ensures ValidDictionary(OM.PutAll(d, ms))
    ensures |OM.PutAll(d, ms)| >= |d| && (ms != [] ==> OM.PutAll(d, ms) != [])
    decreases ms
  {
    if ms != [] {
      var m := ms[0];
      assert m in ms;
      OM.PutUnique(d, m.0, m.1);
      if OM.HasKey(d, m.0) {
        OM.PutAt(d, m.0, m.1, OM.IndexOf(d, m.0));
      }
      PutAllValid(OM.Put(d, m.0, m.1), ms[1..]);
    }
  }

  lemma {:induction false} ParsedDictionary(s: string)
    requires ParseDictionary(s).Some?
    ensures ValidDictionary(ParseDictionary(s).value)
    ensures ParseDictionary(s).value == [] <==> Skip(s, IsSp) == ""
  {
    ParsedMembers(true, Skip(s, IsSp));
    PutAllValid([], ParseMembers(true, Skip(s, IsSp)).value);
  }
}
