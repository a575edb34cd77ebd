/** Structured field values: the types, parser and serialiser of RFC 9651 (which adds dates and display
    strings to RFC 8941) that the crates reach through the `sfv` library.  Parsers return the value and
    the unread rest of the input. */
module StructuredFields {
  import opened Wrappers
  import opened Text
  import Base64
  import Utf8
  import Percent
  import OM = OrderedMap

  // ---- Values ----

  /** `Decimal` counts thousandths. */
  datatype BareItem =
    | Integer(number: int)
    | Decimal(thousandths: int)
    | String(str: string)
    | Token(token: string)
    | ByteSequence(bytes: seq<byte>)
    | Boolean(flag: bool)
    | Date(seconds: int)
    | DisplayString(text: string)

  type Parameters = seq<(string, BareItem)>

  datatype Item = Item(bare: BareItem, params: Parameters)

  datatype InnerList = InnerList(items: seq<Item>, params: Parameters)

  datatype ListEntry = ItemEntry(item: Item) | InnerEntry(inner: InnerList)

  type List = seq<ListEntry>

  type Dictionary = seq<(string, ListEntry)>

  // ---- Character classes ----

  predicate IsAlpha(c: char) { IsUpper(c) || IsLower(c) }

  predicate IsSp(c: char) { c == ' ' }

  predicate IsOws(c: char) { c == ' ' || c == '\t' }

  predicate IsPrintable(c: char) { ' ' <= c <= '~' }

  predicate KeyStart(c: char) { IsLower(c) || c == '*' }

  predicate KeyChar(c: char) { IsLower(c) || IsDigit(c) || c in "_-.*" }

  predicate TokenStart(c: char) { IsAlpha(c) || c == '*' }

  predicate TokenChar(c: char) { IsAlpha(c) || IsDigit(c) || c in "!#$%&'*+-.^_`|~:/" }

  // ---- What the types of the library guarantee ----

  const MAX_INTEGER: int := 999_999_999_999_999

  predicate ValidKey(k: string) {
    k != "" && KeyStart(k[0]) && forall c <- k :: KeyChar(c)
  }

  predicate ValidToken(t: string) {
    t != "" && TokenStart(t[0]) && forall c <- t :: TokenChar(c)
  }

  predicate ValidBare(b: BareItem) {
    match b
    case Integer(i) => -MAX_INTEGER <= i <= MAX_INTEGER
    case Decimal(d) => -MAX_INTEGER <= d <= MAX_INTEGER
    case String(s) => forall c <- s :: IsPrintable(c)
    case Token(t) => ValidToken(t)
    case ByteSequence(_) => true
    case Boolean(_) => true
    case Date(i) => -MAX_INTEGER <= i <= MAX_INTEGER
    case DisplayString(_) => true
  }

  ghost predicate ValidParams(ps: Parameters) {
    OM.UniqueKeys(ps) && forall p <- ps :: ValidKey(p.0) && ValidBare(p.1)
  }

  ghost predicate ValidItem(i: Item) {
    ValidBare(i.bare) && ValidParams(i.params)
  }

  ghost predicate ValidInner(l: InnerList) {
    ValidParams(l.params) && forall i <- l.items :: ValidItem(i)
  }

  ghost predicate ValidEntry(e: ListEntry) {
    match e
    case ItemEntry(i) => ValidItem(i)
    case InnerEntry(l) => ValidInner(l)
  }

  ghost predicate ValidList(l: List) {
    forall e <- l :: ValidEntry(e)
  }

  ghost predicate ValidDictionary(d: Dictionary) {
    OM.UniqueKeys(d) && forall m <- d :: ValidKey(m.0) && ValidEntry(m.1)
  }

  // ---- Serialising (RFC 9651, section 4.1) ----

  function Escape(s: string): string {
    if s == "" then "" else (if s[0] == '"' || s[0] == '\\' then ['\\', s[0]] else [s[0]]) + Escape(s[1..])
  }

  /** The fraction of a decimal with its trailing zeros removed, but never empty. */
  function SerFraction(f: nat): string
    requires f < 1000
  {
    if f % 100 == 0 then [('0' as int + f / 100) as char]
    else if f % 10 == 0 then [('0' as int + f / 100) as char, ('0' as int + f / 10 % 10) as char]
    else [('0' as int + f / 100) as char, ('0' as int + f / 10 % 10) as char, ('0' as int + f % 10) as char]
  }

  function Sign(n: int): string {
    if n < 0 then "-" else ""
  }

  function Abs(n: int): nat {
    if n < 0 then -n else n
  }

  function SerBare(b: BareItem): string {
    match b
    case Integer(i) => Sign(i) + PrintNat(Abs(i))
    case Decimal(d) => Sign(d) + PrintNat(Abs(d) / 1000) + "." + SerFraction(Abs(d) % 1000)
    case String(s) => "\"" + Escape(s) + "\""
    case Token(t) => t
    case ByteSequence(b) => ":" + Base64.Encode(b) + ":"
    case Boolean(v) => if v then "?1" else "?0"
    case Date(i) => "@" + (Sign(i) + PrintNat(Abs(i)))
    case DisplayString(t) => "%\"" + (Percent.Encode(Utf8.Encode(t)) + "\"")
  }

  function SerParam(p: (string, BareItem)): string {
    ";" + p.0 + (if p.1 == Boolean(true) then "" else "=" + SerBare(p.1))
  }

  function SerParams(ps: Parameters): string {
    if ps == [] then "" else SerParam(ps[0]) + SerParams(ps[1..])
  }

  function SerItem(i: Item): string {
    SerBare(i.bare) + SerParams(i.params)
  }

  /** Items separated by one space. */
  function SerItems(items: seq<Item>): string {
    if |items| == 0 then ""
    else if |items| == 1 then SerItem(items[0])
    else SerItem(items[0]) + " " + SerItems(items[1..])
  }

  function SerInner(l: InnerList): string {
    "(" + SerItems(l.items) + ")" + SerParams(l.params)
  }

  function SerEntry(e: ListEntry): string {
    match e
    case ItemEntry(i) => SerItem(i)
    case InnerEntry(l) => SerInner(l)
  }

  /** A list member, or a dictionary member when `asDict`; list members carry an empty key. */
  function SerMember(asDict: bool, m: (string, ListEntry)): string {
    if !asDict then SerEntry(m.1)
    else if m.1.ItemEntry? && m.1.item.bare == Boolean(true) then m.0 + SerParams(m.1.item.params)
    else m.0 + "=" + SerEntry(m.1)
  }

  function SerMembers(asDict: bool, ms: seq<(string, ListEntry)>): string {
    if |ms| == 0 then ""
    else if |ms| == 1 then SerMember(asDict, ms[0])
    else SerMember(asDict, ms[0]) + ", " + SerMembers(asDict, ms[1..])
  }

  function AsMembers(l: List): (ms: seq<(string, ListEntry)>)
    ensures |ms| == |l| && forall i | 0 <= i < |l| :: ms[i] == ("", l[i])
  {
    seq(|l|, i requires 0 <= i < |l| => ("", l[i]))
  }

  /** Nothing is serialised for an empty list. */
  function SerList(l: List): Option<string> {
    if l == [] then None else Some(SerMembers(false, AsMembers(l)))
  }

  /** Nothing is serialised for an empty dictionary. */
  function SerDictionary(d: Dictionary): Option<string> {
    if d == [] then None else Some(SerMembers(true, d))
  }

  // ---- Parsing (RFC 9651, section 4.2) ----

  function ParseKey(s: string): (r: Option<(string, string)>)
    ensures r.Some? ==> |r.value.1| < |s| && ValidKey(r.value.0)
  {
    if s != "" && KeyStart(s[0]) then
      var n := Run(s, KeyChar);
      assert n > 0;
      Some((s[..n], s[n..]))
    else None
  }

  /** Reads up to the closing quote. */
  function ParseStringBody(s: string): (r: Option<(string, string)>)
    ensures r.Some? ==> |r.value.1| < |s| && forall c <- r.value.0 :: IsPrintable(c)
    decreases |s|
  {
    if s == "" then None
    else if s[0] == '"' then Some(("", s[1..]))
    else if s[0] == '\\' then
      if |s| >= 2 && (s[1] == '"' || s[1] == '\\') then
        var t :- ParseStringBody(s[2..]);
        Some(([s[1]] + t.0, t.1))
      else None
    else if !IsPrintable(s[0]) then None
    else
      var t :- ParseStringBody(s[1..]);
      Some(([s[0]] + t.0, t.1))
  }

  /** Thousandths written by one to three fraction digits. */
  function FractionValue(f: string): nat
    requires 1 <= |f| <= 3 && forall c <- f :: IsDigit(c)
  {
    assert forall i | 0 <= i < |f| :: IsDigit(f[i]);
    (f[0] as int - '0' as int) * 100
    + (if |f| > 1 then (f[1] as int - '0' as int) * 10 else 0)
    + (if |f| > 2 then f[2] as int - '0' as int else 0)
  }

  /** What follows the point of a decimal, `whole` being the digits in front of it. */
  function ParseFraction(negative: bool, whole: int, s: string): (r: Option<(BareItem, string)>)
    requires 0 <= whole < 1_000_000_000_000
    ensures r.Some? ==> |r.value.1| <= |s| && ValidBare(r.value.0) && r.value.0.Decimal?
  {
    var k := Run(s, IsDigit);
    if k == 0 || k > 3 then None
    else
      var d := whole * 1000 + FractionValue(s[..k]);
      FractionBound(s[..k]);
      Some((Decimal(if negative then -d else d), s[k..]))
  }

  /** The digits of a number after its sign, `negative` being the sign. */
  function ParseUnsigned(negative: bool, s: string): (r: Option<(BareItem, string)>)
    ensures r.Some? ==> |r.value.1| < |s| && ValidBare(r.value.0)
    ensures r.Some? ==> r.value.0.Integer? || r.value.0.Decimal?
  {
    var n := Run(s, IsDigit);
    if n == 0 then None
    else
      var whole: int := DigitsValue(s[..n]);
      DigitsBound(s[..n]);
      PowersOfTen();
      if s[n..] != "" && s[n] == '.' then
        if n > 12 then None
        else
          Pow10Monotone(n, 12);
          ParseFraction(negative, whole, s[n + 1..])
      else if n > 15 then None
      else
        Pow10Monotone(n, 15);
        Some((Integer(if negative then -whole else whole), s[n..]))
  }

  lemma {:induction false} PowersOfTen()
    ensures Pow10(12) == 1_000_000_000_000 && Pow10(15) == 1_000_000_000_000_000
  {
    assert Pow10(3) == 1000;
    assert Pow10(6) == 1_000_000;
    assert Pow10(9) == 1_000_000_000;
  }

  lemma {:induction false} Pow10Monotone(a: nat, b: nat)
    requires a <= b
    ensures Pow10(a) <= Pow10(b)
    decreases b - a
  {
    if a < b {
      Pow10Monotone(a + 1, b);
    }
  }

  lemma {:induction false} FractionBound(f: string)
    requires 1 <= |f| <= 3 && forall c <- f :: IsDigit(c)
    ensures FractionValue(f) < 1000
  {
    assert forall i | 0 <= i < |f| :: IsDigit(f[i]);
  }

  /** A date after its `@`: an integer. */
  function ParseDate(s: string): (r: Option<(BareItem, string)>)
    ensures r.Some? ==> |r.value.1| < |s| && ValidBare(r.value.0) && r.value.0.Date?
  {
    var n :- if StartsWith(s, '-') then ParseUnsigned(true, s[1..]) else ParseUnsigned(false, s);
    if n.0.Integer? then Some((Date(n.0.number), n.1)) else None
  }

  /** A display string after its `%`. */
  function ParseDisplay(s: string): (r: Option<(BareItem, string)>)
    ensures r.Some? ==> |r.value.1| < |s| && r.value.0.DisplayString?
  {
    if !StartsWith(s, '"') then None
    else
      var t :- Percent.Read(s[1..]);
      var text :- Utf8.Decode(t.0);
      Some((DisplayString(text), t.1))
  }

  function ParseBare(s: string): (r: Option<(BareItem, string)>)
    ensures r.Some? ==> |r.value.1| < |s| && ValidBare(r.value.0)
  {
    if s == "" then None
    else if s[0] == '"' then
      var t :- ParseStringBody(s[1..]);
      Some((String(t.0), t.1))
    else if s[0] == ':' then
      var t :- SplitOnce(s[1..], ':');
      var b :- Base64.Decode(t.0);
      Some((ByteSequence(b), t.1))
    else if s[0] == '?' then
      if |s| >= 2 && (s[1] == '0' || s[1] == '1') then Some((Boolean(s[1] == '1'), s[2..])) else None
    else if s[0] == '@' then ParseDate(s[1..])
    else if s[0] == '%' then ParseDisplay(s[1..])
    else if s[0] == '-' then ParseUnsigned(true, s[1..])
    else if IsDigit(s[0]) then ParseUnsigned(false, s)
    else if TokenStart(s[0]) then
      var n := Run(s, TokenChar);
      assert n > 0;
      Some((Token(s[..n]), s[n..]))
    else None
  }

  /** The value after a parameter key: `true` when there is no `=`. */
  function ParseParamValue(s: string): (r: Option<(BareItem, string)>)
    ensures r.Some? ==> |r.value.1| <= |s| && ValidBare(r.value.0)
  {
    if StartsWith(s, '=') then ParseBare(s[1..]) else Some((Boolean(true), s))
  }

  /** Parameters read so far are in `acc`; a repeated key overwrites the earlier value. */
  function ParseParams(s: string, acc: Parameters): (r: Option<(Parameters, string)>)
    ensures r.Some? ==> |r.value.1| <= |s| && !StartsWith(r.value.1, ';')
    decreases |s|
  {
    if !StartsWith(s, ';') then Some((acc, s))
    else
      var k :- ParseKey(Skip(s[1..], IsSp));
      var v :- ParseParamValue(k.1);
      ParseParams(v.1, OM.Put(acc, k.0, v.0))
  }

  function ParseItem(s: string): (r: Option<(Item, string)>)
    ensures r.Some? ==> |r.value.1| < |s|
  {
    var b :- ParseBare(s);
    var p :- ParseParams(b.1, []);
    Some((Item(b.0, p.0), p.1))
  }

  /** Inside an inner list, after its `(`. */
  function ParseItems(s: string): (r: Option<(seq<Item>, string)>)
    ensures r.Some? ==> |r.value.1| < |s|
    decreases |s|
  {
    var t := Skip(s, IsSp);
    if t == "" then None
    else if t[0] == ')' then Some(([], t[1..]))
    else
      var i :- ParseItem(t);
      if i.1 == "" || (i.1[0] != ' ' && i.1[0] != ')') then None
      else
        var rest :- ParseItems(i.1);
        Some(([i.0] + rest.0, rest.1))
  }

  function ParseEntry(s: string): (r: Option<(ListEntry, string)>)
    ensures r.Some? ==> |r.value.1| < |s|
  {
    if StartsWith(s, '(') then
      var l :- ParseItems(s[1..]);
      var p :- ParseParams(l.1, []);
      Some((InnerEntry(InnerList(l.0, p.0)), p.1))
    else
      var i :- ParseItem(s);
      Some((ItemEntry(i.0), i.1))
  }

  function ParseMember(asDict: bool, s: string): (r: Option<((string, ListEntry), string)>)
    ensures r.Some? ==> |r.value.1| < |s|
  {
    if !asDict then
      var e :- ParseEntry(s);
      Some((("", e.0), e.1))
    else
      var k :- ParseKey(s);
      if StartsWith(k.1, '=') then
        var e :- ParseEntry(k.1[1..]);
        Some(((k.0, e.0), e.1))
      else
        var p :- ParseParams(k.1, []);
        Some(((k.0, ItemEntry(Item(Boolean(true), p.0))), p.1))
  }

  /** Comma-separated members; a trailing comma is an error. */
  function ParseMembers(asDict: bool, s: string): Option<seq<(string, ListEntry)>>
    decreases |s|
  {
    if s == "" then Some([])
    else
      var m :- ParseMember(asDict, s);
      var r := Skip(m.1, IsOws);
      if r == "" then Some([m.0])
      else if r[0] != ',' then None
      else
        var t := Skip(r[1..], IsOws);
        if t == "" then None
        else
          var ms :- ParseMembers(asDict, t);
          Some([m.0] + ms)
  }

  function Entries(ms: seq<(string, ListEntry)>): (l: List)
    ensures |l| == |ms| && forall i | 0 <= i < |ms| :: l[i] == ms[i].1
  {
    seq(|ms|, i requires 0 <= i < |ms| => ms[i].1)
  }

  function ParseList(s: string): Option<List> {
    var ms :- ParseMembers(false, Skip(s, IsSp));
    Some(Entries(ms))
  }

  /** A repeated key overwrites the earlier member, in its place. */
  function ParseDictionary(s: string): Option<Dictionary> {
    var ms :- ParseMembers(true, Skip(s, IsSp));
    Some(OM.PutAll([], ms))
  }

  function ParseItemField(s: string): Option<Item> {
    var i :- ParseItem(Skip(s, IsSp));
    if Skip(i.1, IsSp) == "" then Some(i.0) else None
  }
}
