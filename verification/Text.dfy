/** The string operations of the Rust standard library that the crates use. */
module Text {
  import opened Wrappers

  type byte = b: int | 0 <= b < 256

  /** `char::is_whitespace`: the Unicode property White_Space. */
  predicate IsWhitespace(c: char) {
    var n := c as int;
    || 0x09 <= n <= 0x0D || n == 0x20 || n == 0x85 || n == 0xA0 || n == 0x1680
    || 0x2000 <= n <= 0x200A || n == 0x2028 || n == 0x2029 || n == 0x202F || n == 0x205F || n == 0x3000
  }

  function TrimStart(s: string): string {
    if s != "" && IsWhitespace(s[0]) then TrimStart(s[1..]) else s
  }

  function TrimEnd(s: string): string {
    if s != "" && IsWhitespace(s[|s| - 1]) then TrimEnd(s[..|s| - 1]) else s
  }

  function Trim(s: string): string {
    TrimEnd(TrimStart(s))
  }

  /** No white space at either end. */
  predicate Trimmed(s: string) {
    s != "" ==> !IsWhitespace(s[0]) && !IsWhitespace(s[|s| - 1])
  }

  function Join(parts: seq<string>, sep: string): string {
    if |parts| == 0 then ""
    else if |parts| == 1 then parts[0]
    else parts[0] + sep + Join(parts[1..], sep)
  }

  lemma {:induction false} JoinCons(x: string, rest: seq<string>, sep: string)
    requires rest != []
    ensures Join([x] + rest, sep) == x + sep + Join(rest, sep)
  {
    assert ([x] + rest)[1..] == rest;
  }

  lemma {:induction false} JoinAppend(a: seq<string>, b: seq<string>, sep: string)
    requires a != [] && b != []
    ensures Join(a + b, sep) == Join(a, sep) + sep + Join(b, sep)
  {
    if |a| == 1 {
      assert a + b == [a[0]] + b;
      JoinCons(a[0], b, sep);
    } else {
      JoinAppend(a[1..], b, sep);
      JoinCons(a[0], a[1..] + b, sep);
      assert a + b == [a[0]] + (a[1..] + b);
      assert a[0] + sep + (Join(a[1..], sep) + sep + Join(b, sep))
        == (a[0] + sep + Join(a[1..], sep)) + sep + Join(b, sep);
    }
  }

  lemma {:induction false} JoinSnoc(parts: seq<string>, last: string, sep: string)
    ensures Join(parts + [last], sep) == if parts == [] then last else Join(parts, sep) + sep + last
  {
    if parts == [] {
      assert parts + [last] == [last];
    } else {
      JoinAppend(parts, [last], sep);
    }
  }

  lemma {:induction false} JoinGrows(a: seq<string>, b: seq<string>)
    requires b != [] && forall x <- b :: x != ""
    ensures |Join(a + b, ", ")| > |Join(a, ", ")|
  {
    if a == [] {
      assert a + b == b;
      assert b[0] in b;
    } else {
      JoinAppend(a, b, ", ");
    }
  }

  /** `str::split_once` with a character pattern. */
  function SplitOnce(s: string, c: char): (r: Option<(string, string)>)
    ensures r.Some? ==> s == r.value.0 + [c] + r.value.1 && c !in r.value.0
    ensures r.None? <==> c !in s
  {
    if s == "" then None
    else if s[0] == c then
      assert s == "" + [c] + s[1..];
      Some(("", s[1..]))
    else
      match SplitOnce(s[1..], c)
      case None => None
      case Some((a, b)) =>
        assert s == ([s[0]] + a) + [c] + b;
        Some(([s[0]] + a, b))
  }

  lemma {:induction false} SplitOnceAt(a: string, c: char, b: string)
    requires c !in a
    ensures SplitOnce(a + [c] + b, c) == Some((a, b))
  {
    var s := a + [c] + b;
    if a == "" {
      assert s[1..] == b;
    } else {
      assert s[1..] == a[1..] + [c] + b;
      SplitOnceAt(a[1..], c, b);
      assert a == [a[0]] + a[1..];
    }
  }

  /** `str::split` with a character pattern; never empty. */
  function Split(s: string, c: char): (parts: seq<string>)
    ensures |parts| >= 1
    ensures forall p <- parts :: c !in p
    decreases |s|
  {
    match SplitOnce(s, c)
    case None => [s]
    case Some((a, b)) => [a] + Split(b, c)
  }

  /** Splitting undoes joining when no part holds the separator. */
  lemma {:induction false} SplitJoin(parts: seq<string>, c: char)
    requires |parts| >= 1
    requires forall p <- parts :: c !in p
    ensures Split(Join(parts, [c]), c) == parts
  {
    if |parts| == 1 {
    } else {
      SplitOnceAt(parts[0], c, Join(parts[1..], [c]));
      SplitJoin(parts[1..], c);
      assert parts == [parts[0]] + parts[1..];
    }
  }

  /** Joining undoes splitting. */
  lemma {:induction false} JoinSplit(s: string, c: char)
    ensures Join(Split(s, c), [c]) == s
    decreases |s|
  {
    match SplitOnce(s, c)
    case None =>
    case Some((a, b)) =>
      JoinSplit(b, c);
      assert Split(s, c) == [a] + Split(b, c);
      JoinCons(a, Split(b, c), [c]);
  }

  /** Length of the longest prefix whose characters all satisfy `p`. */
  function Run(s: string, p: char -> bool): (n: nat)
    ensures n <= |s|
    ensures forall i | 0 <= i < n :: p(s[i])
    ensures n < |s| ==> !p(s[n])
  {
    if s != "" && p(s[0]) then 1 + Run(s[1..], p) else 0
  }

  /** A run is determined by its two defining properties. */
  lemma {:induction false} RunIs(s: string, p: char -> bool, n: nat)
    requires n <= |s|
    requires forall i | 0 <= i < n :: p(s[i])
    requires n < |s| ==> !p(s[n])
    ensures Run(s, p) == n
  {
  }

  /** Drops the longest prefix whose characters all satisfy `p`. */
  function Skip(s: string, p: char -> bool): (r: string)
    ensures |r| <= |s|
    ensures r != "" ==> !p(r[0])
  {
    s[Run(s, p)..]
  }

  predicate IsUpper(c: char) { 'A' <= c <= 'Z' }

  predicate IsLower(c: char) { 'a' <= c <= 'z' }

  predicate IsDigit(c: char) { '0' <= c <= '9' }

  function LowerChar(c: char): char {
    if IsUpper(c) then (c as int + 32) as char else c
  }

  function UpperChar(c: char): char {
    if IsLower(c) then (c as int - 32) as char else c
  }

  /** `to_ascii_lowercase` */
  function ToLower(s: string): (r: string)
    ensures |r| == |s|
  {
    seq(|s|, i requires 0 <= i < |s| => LowerChar(s[i]))
  }

  /** `to_ascii_uppercase` */
  function ToUpper(s: string): (r: string)
    ensures |r| == |s|
  {
    seq(|s|, i requires 0 <= i < |s| => UpperChar(s[i]))
  }

  predicate StartsWith(s: string, c: char) { s != "" && s[0] == c }

  predicate EndsWith(s: string, c: char) { s != "" && s[|s| - 1] == c }

  /** Decimal digits of a natural number. */
  function PrintNat(n: nat): (s: string)
    ensures s != "" && forall c <- s :: IsDigit(c)
  {
    if n < 10 then [('0' as int + n) as char] else PrintNat(n / 10) + [('0' as int + n % 10) as char]
  }

  function DigitsValue(s: string): nat
    requires forall c <- s :: IsDigit(c)
  {
    if s == "" then 0 else
      assert IsDigit(s[|s| - 1]);
      DigitsValue(s[..|s| - 1]) * 10 + (s[|s| - 1] as int - '0' as int)
  }

  lemma {:induction false} DigitsOfNat(n: nat)
    ensures DigitsValue(PrintNat(n)) == n
  {
    if n >= 10 {
      DigitsOfNat(n / 10);
      assert PrintNat(n)[..|PrintNat(n)| - 1] == PrintNat(n / 10);
    }
  }

  function Pow10(k: nat): (r: nat)
    ensures r >= 1
  {
    if k == 0 then 1 else 10 * Pow10(k - 1)
  }

  lemma {:induction false} PrintNatLength(n: nat, k: nat)
    requires k >= 1 && n < Pow10(k)
    ensures |PrintNat(n)| <= k
  {
    if n >= 10 {
      assert k >= 2;
      PrintNatLength(n / 10, k - 1);
    }
  }

  lemma {:induction false} DigitsBound(s: string)
    requires forall c <- s :: IsDigit(c)
    ensures DigitsValue(s) < Pow10(|s|)
  {
    if s != "" {
      DigitsBound(s[..|s| - 1]);
      assert IsDigit(s[|s| - 1]);
    }
  }
}
