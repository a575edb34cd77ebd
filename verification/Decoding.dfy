/** Exactly which components and signature bases can be read back from what is printed. */
module Decoding {
  import opened Wrappers
  import opened Text
  import opened ComponentId
  import opened Component
  import opened SignatureParams
  import opened SignatureBase
  import opened Escaping

  // ---- One line ----

  lemma {:induction false} TrimIsTrimmed(s: string)
    ensures Trimmed(Trim(s))
  {
    TrimStartStops(s);
    TrimEndStops(TrimStart(s));
  }

  lemma {:induction false} TrimStartStops(s: string)
    ensures TrimStart(s) != "" ==> !IsWhitespace(TrimStart(s)[0])
  {
    if s != "" { TrimStartStops(s[1..]); }
  }

  lemma {:induction false} TrimEndStops(s: string)
    requires s != "" ==> !IsWhitespace(s[0])
    ensures Trimmed(TrimEnd(s))
  {
    hide IsWhitespace;
    if s != "" && IsWhitespace(s[|s| - 1]) { TrimEndStops(s[..|s| - 1]); }
  }

  /** An identifier that was read from text without a colon is printed without one. */
  lemma {:induction false} NoColon(a: string)
    requires ':' !in a && ParseId(Trim(a)).Ok?
    ensures ':' !in PrintId(ParseId(Trim(a)).value)
  {
    hide PrintId, ParseId, Trim, Marks, ItemCost;
    var id := ParseId(Trim(a)).value;
    NoMarks(':', a);
    TrimSpends(':', a);
    IdSpends(':', Trim(a));
    IdPrintCost(':', id);
    NoMarks(':', PrintId(id));
  }

  lemma {:induction false} LineReads(c: Component)
    requires ParseComponent(PrintComponent(c)) == Ok(c)
    ensures ':' !in PrintId(c.id) && ParseId(PrintId(c.id)) == Ok(c.id)
    ensures c.value == Plain(Trim(" " + Render(c.value)))
  {
    hide PrintId, ParseId, Trim;
    var s, v := PrintId(c.id), Render(c.value);
    var parts := SplitOnce(PrintComponent(c), ':').value;
    NoColon(parts.0);
    assert PrintComponent(c) == s + [':'] + (" " + v);
    SplitOnceAt(s, ':', " " + v);
    IdTrimmed(c.id);
    TrimTrimmed(s);
  }

  /** A component reads back from its printed line exactly when its identifier is well formed and
      prints without a colon, and its value is trimmed plain text. */
  lemma {:induction false} ComponentReadsBackExactly(c: Component)
    ensures ParseComponent(PrintComponent(c)) == Ok(c) <==>
      WellFormedId(c.id) && ':' !in PrintId(c.id) && c.value.Plain? && Trimmed(c.value.val)
  {
    hide ParseComponent, PrintComponent, WellFormedId, PrintId, Trim, Trimmed, ParseId;
    if WellFormedId(c.id) && ':' !in PrintId(c.id) && c.value.Plain? && Trimmed(c.value.val) {
      ComponentRoundTrip(c);
    }
    if ParseComponent(PrintComponent(c)) == Ok(c) {
      LineReads(c);
      IdReadsBackExactly(c.id);
      TrimIsTrimmed(" " + Render(c.value));
    }
  }

  // ---- A whole base ----

  lemma {:induction false} SplitCount(s: string, c: char)
    ensures |Split(s, c)| == Marks(c, s) + 1
    decreases |s|
  {
    match SplitOnce(s, c)
    case None =>
      NoMarks(c, s);
      assert Split(s, c) == [s];
    case Some((a, b)) =>
      SplitCount(b, c);
      assert Split(s, c) == [a] + Split(b, c);
      MarksAppend(c, a + [c], b);
      MarksAppend(c, a, [c]);
      NoMarks(c, a);
      assert [c][1..] == "";
  }

  /** Every line brings its own newline, and no more exactly if it holds none. */
  lemma {:induction false} LineBreaks(lines: seq<Component>)
    ensures Marks('\n', PrintLines(lines)) >= |lines|
    ensures Marks('\n', PrintLines(lines)) == |lines| ==> forall c <- lines :: '\n' !in PrintComponent(c)
  {
    hide PrintComponent, Marks;
    if lines == [] {
      NoMarks('\n', "");
    } else {
      var s := PrintComponent(lines[0]);
      LineBreaks(lines[1..]);
      NoMarks('\n', s);
      OneBreak();
      MarksAppend('\n', s, "\n");
      MarksAppend('\n', s + "\n", PrintLines(lines[1..]));
      assert lines == [lines[0]] + lines[1..];
    }
  }

  lemma {:induction false} OneBreak()
    ensures Marks('\n', "\n") == 1
  {
    assert "\n"[1..] == "";
  }

  lemma {:induction false} ParsedLines(texts: seq<string>)
    requires ParseLines(texts).Ok?
    ensures |ParseLines(texts).value| == |texts|
    ensures forall i | 0 <= i < |texts| :: ParseComponent(texts[i]) == Ok(ParseLines(texts).value[i])
  {
    hide ParseComponent;
    if texts != [] { ParsedLines(texts[1..]); }
  }

  lemma {:induction false} PartsNoBreak(c: Component)
    requires '\n' !in PrintComponent(c)
    ensures '\n' !in PrintId(c.id) && '\n' !in Render(c.value)
  {
    hide PrintId;
    var s := PrintComponent(c);
    assert forall x <- PrintId(c.id) :: x in s;
    assert forall x <- Render(c.value) :: x in s;
  }

  /** If a base reads back, then nothing that it prints holds a newline: there are as many lines in
      the text as in the base. */
  lemma {:induction false} DecodedNoNewline(b: SignatureBase)
    requires DecodeBase(PrintBase(b)) == Ok(b)
    ensures NoNewline(b)
  {
    hide ParseComponent, PrintComponent, PrintParams, ParseParamsText, Split, Marks, SameId, PrintLines, ParseLines;
    hide PrintId;
    var texts, last := Split(PrintBase(b), '\n'), PARAMS_PREFIX + PrintParams(b.params);
    SplitCount(PrintBase(b), '\n');
    ParsedLines(texts[..|texts| - 1]);
    LineBreaks(b.lines);
    MarksAppend('\n', PrintLines(b.lines), last);
    NoMarks('\n', last);
    assert forall x <- PrintParams(b.params) :: x in last;
    forall c <- b.lines ensures '\n' !in PrintId(c.id) && '\n' !in Render(c.value) { PartsNoBreak(c); }
  }

  lemma {:induction false} DecodedParts(b: SignatureBase)
    requires DecodeBase(PrintBase(b)) == Ok(b)
    ensures TryNew(b.lines, b.params).Ok? && ParseParamsText(PrintParams(b.params)) == Ok(b.params)
    ensures forall c <- b.lines :: ParseComponent(PrintComponent(c)) == Ok(c)
  {
    hide ParseComponent, PrintComponent, PrintParams, ParseParamsText, Split, SameId, PrintBase, ParseLines, NoNewline;
    DecodedNoNewline(b);
    SplitBase(b);
    var texts := LineTexts(b);
    var n := |b.lines|;
    assert texts[n][|PARAMS_PREFIX|..] == PrintParams(b.params);
    ParsedLines(texts[..n]);
    forall c <- b.lines ensures ParseComponent(PrintComponent(c)) == Ok(c) {
      var i :| 0 <= i < n && b.lines[i] == c;
      assert texts[..n][i] == PrintComponent(c);
    }
  }

  /** A signature base reads back from its printed form exactly when its lines are those of its covered
      identifiers, every line reads back and holds no newline, and the parameters are well formed. */
  lemma {:induction false} BaseReadsBackExactly(b: SignatureBase)
    ensures DecodeBase(PrintBase(b)) == Ok(b) <==>
      && TryNew(b.lines, b.params).Ok? && WellFormedParams(b.params)
      && forall c <- b.lines :: WellFormedId(c.id) && Decodable(c)
  {
    hide DecodeBase, PrintBase, TryNew, WellFormedParams, WellFormedId, ParseComponent, PrintComponent;
    hide ParseParamsText, PrintParams, PrintId, Trimmed;
    if TryNew(b.lines, b.params).Ok? && WellFormedParams(b.params)
       && forall c <- b.lines :: WellFormedId(c.id) && Decodable(c) {
      BaseRoundTrip(b);
    }
    if DecodeBase(PrintBase(b)) == Ok(b) {
      DecodedNoNewline(b);
      DecodedParts(b);
      ParamsReadBackExactly(b.params);
      forall c <- b.lines ensures WellFormedId(c.id) && Decodable(c) { ComponentReadsBackExactly(c); }
    }
  }
}
