/** The grammar of structured field values (RFC 9651, section 3 with the leniencies of section 4.2), as
    relations between text and values. */
module Grammar {
  import opened Wrappers
  import opened Text
  import opened StructuredFields
  import Base64
  import Utf8
  import OM = OrderedMap

  // ---- Characters ----

  predicate Digit(c: char) { '0' <= c <= '9' }

  predicate Lower(c: char) { 'a' <= c <= 'z' }

  predicate Letter(c: char) { ('a' <= c <= 'z') || ('A' <= c <= 'Z') }

  predicate Digits(s: string) { forall c <- s :: Digit(c) }

  predicate Spaces(s: string) { forall c <- s :: c == ' ' }

  predicate Blanks(s: string) { forall c <- s :: c == ' ' || c == '\t' }

  predicate Key(s: string) {
    && s != "" && (Lower(s[0]) || s[0] == '*')
    && forall c <- s :: Lower(c) || Digit(c) || c == '_' || c == '-' || c == '.' || c == '*'
  }

  predicate TokenText(s: string) {
    && s != "" && (Letter(s[0]) || s[0] == '*')
    && forall c <- s :: Letter(c) || Digit(c) || c in "!#$%&'*+-.^_`|~" || c == ':' || c == '/'
  }

  // ---- Numbers ----

  /** The number that digits stand for. */
  function Num(s: string): nat
    requires Digits(s)
  {
    if s == "" then 0
    else
      assert Digit(s[|s| - 1]);
      Num(s[..|s| - 1]) * 10 + (s[|s| - 1] as int - '0' as int)
  }

  function Signed(negative: bool, n: nat): int {
    if negative then -(n as int) else n
  }

  function SignText(negative: bool): string {
    if negative then "-" else ""
  }

  ghost predicate IntegerText(s: string, n: int) {
    exists negative: bool, d: string ::
      s == SignText(negative) + d && 1 <= |d| <= 15 && Digits(d) && n == Signed(negative, Num(d))
  }

  /** The thousandths of up to three digits behind a point. */
  function Thousandths(f: string): nat
    requires Digits(f)
  {
    if |f| == 1 then Num(f) * 100 else if |f| == 2 then Num(f) * 10 else Num(f)
  }

  ghost predicate DecimalText(s: string, n: int) {
    exists negative: bool, w: string, f: string ::
      && s == SignText(negative) + w + "." + f
      && 1 <= |w| <= 12 && Digits(w) && 1 <= |f| <= 3 && Digits(f)
      && n == Signed(negative, Num(w) * 1000 + Thousandths(f))
  }

  // ---- Strings ----

  /** The text between the quotation marks of a string. */
  ghost predicate Body(s: string, t: string)
    decreases |s|
  {
    if s == "" then t == ""
    else if s[0] == '\\' then
      |s| >= 2 && (s[1] == '"' || s[1] == '\\') && t != "" && t[0] == s[1] && Body(s[2..], t[1..])
    else s[0] != '"' && ' ' <= s[0] <= '~' && t != "" && t[0] == s[0] && Body(s[1..], t[1..])
  }

  predicate HexText(s: string, n: int) {
    && |s| == 2
    && (forall c <- s :: Digit(c) || 'a' <= c <= 'f')
    && n == Nibble(s[0]) * 16 + Nibble(s[1])
  }

  function Nibble(c: char): int {
    if Digit(c) then c as int - '0' as int else c as int - 'a' as int + 10
  }

  /** The text between the quotation marks of a display string. */
  ghost predicate Bytes(s: string, b: seq<byte>)
    decreases |s|
  {
    if s == "" then b == []
    else if s[0] == '%' then |s| >= 3 && b != [] && HexText(s[1..3], b[0]) && Bytes(s[3..], b[1..])
    else s[0] != '"' && ' ' <= s[0] <= '~' && b != [] && b[0] == s[0] as int && Bytes(s[1..], b[1..])
  }

  // ---- Bare items ----

  ghost predicate StringText(s: string, t: string) {
    exists x :: s == "\"" + x + "\"" && Body(x, t)
  }

  ghost predicate BytesText(s: string, v: seq<byte>) {
    exists x :: s == ":" + x + ":" && ':' !in x && Base64.Decode(x) == Some(v)
  }

  ghost predicate DateText(s: string, n: int) {
    exists x :: s == "@" + x && IntegerText(x, n)
  }

  ghost predicate DisplayText(s: string, t: string) {
    exists x, b :: s == "%\"" + x + "\"" && Bytes(x, b) && Utf8.Decode(b) == Some(t)
  }

  ghost predicate BareText(s: string, b: BareItem) {
    match b
    case Integer(n) => IntegerText(s, n)
    case Decimal(n) => DecimalText(s, n)
    case String(t) => StringText(s, t)
    case Token(t) => s == t && TokenText(t)
    case ByteSequence(v) => BytesText(s, v)
    case Boolean(v) => s == if v then "?1" else "?0"
    case Date(n) => DateText(s, n)
    case DisplayString(t) => DisplayText(s, t)
  }

  // ---- Parameters and items ----

  ghost predicate ValueText(s: string, v: BareItem) {
    if s == "" then v == Boolean(true) else s[0] == '=' && BareText(s[1..], v)
  }

  ghost predicate ParamText(s: string, q: (string, BareItem)) {
    exists sp, x :: s == ";" + sp + q.0 + x && Spaces(sp) && Key(q.0) && ValueText(x, q.1)
  }

  /** Parameters one after the other; a repeated key is still there twice. */
  ghost predicate RawParams(s: string, raw: Parameters)
    decreases raw
  {
    if raw == [] then s == ""
    else exists a, b :: s == a + b && ParamText(a, raw[0]) && RawParams(b, raw[1..])
  }

  /** Of a repeated key the last value counts, in the place of the first. */
  ghost predicate ParamsText(s: string, ps: Parameters) {
    exists raw :: RawParams(s, raw) && ps == OM.PutAll([], raw)
  }

  ghost predicate ItemText(s: string, i: Item) {
    exists a, b :: s == a + b && BareText(a, i.bare) && ParamsText(b, i.params)
  }

  /** The items of an inner list and its closing parenthesis. */
  ghost predicate ItemsText(s: string, items: seq<Item>)
    decreases items
  {
    if items == [] then exists sp :: s == sp + ")" && Spaces(sp)
    else exists sp, a, b ::
      s == sp + a + b && Spaces(sp) && ItemText(a, items[0]) && ItemsText(b, items[1..])
      && b != "" && (b[0] == ' ' || b[0] == ')')
  }

  ghost predicate InnerText(s: string, l: InnerList) {
    exists a, b :: s == "(" + a + b && ItemsText(a, l.items) && ParamsText(b, l.params)
  }

  ghost predicate EntryText(s: string, e: ListEntry) {
    match e
    case ItemEntry(i) => ItemText(s, i)
    case InnerEntry(l) => InnerText(s, l)
  }

  // ---- Members ----

  /** A member of a dictionary: `key=entry`, or a key with parameters, which is true. */
  ghost predicate KeyedText(s: string, m: (string, ListEntry)) {
    exists x :: s == m.0 + x && Key(m.0) && TailText(x, m.1)
  }

  ghost predicate TailText(s: string, e: ListEntry) {
    if s != "" && s[0] == '=' then EntryText(s[1..], e)
    else e.ItemEntry? && e.item.bare == Boolean(true) && ParamsText(s, e.item.params)
  }

  ghost predicate MemberText(asDict: bool, s: string, m: (string, ListEntry)) {
    if asDict then KeyedText(s, m) else m.0 == "" && EntryText(s, m.1)
  }

  /** Members with a comma, and white space around it, between any two. */
  ghost predicate MembersText(asDict: bool, s: string, ms: seq<(string, ListEntry)>)
    decreases ms
  {
    if ms == [] then false
    else if |ms| == 1 then exists a, w :: s == a + w && MemberText(asDict, a, ms[0]) && Blanks(w)
    else exists a, w, x, b ::
      && s == a + w + "," + x + b && Blanks(w) && Blanks(x)
      && MemberText(asDict, a, ms[0]) && MembersText(asDict, b, ms[1..])
  }

  // ---- Whole fields ----

  ghost predicate ListText(s: string, l: List) {
    exists sp, t :: s == sp + t && Spaces(sp) && if l == [] then t == "" else MembersText(false, t, AsMembers(l))
  }

  ghost predicate DictionaryText(s: string, d: Dictionary) {
    exists sp, t, raw :: s == sp + t && Spaces(sp) && d == OM.PutAll([], raw)
      && if raw == [] then t == "" else MembersText(true, t, raw)
  }

  ghost predicate ItemFieldText(s: string, i: Item) {
    exists a, t, b :: s == a + t + b && Spaces(a) && ItemText(t, i) && Spaces(b)
  }
}
