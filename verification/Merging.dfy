/** What happens to a component when the lines of a field are merged into one, as intermediaries may
    do: when its value stays what it was. */
module Merging {
  import opened Wrappers
  import opened Text
  import opened StructuredFields
  import opened ComponentId
  import opened Component
  import opened FieldParameters
  import RT = StructuredFieldsRoundTrip
  import SFJ = StructuredFieldsJoin
  import OM = OrderedMap
  import Base64

  function Merged(vs: seq<string>): seq<string> {
    [Join(vs, ", ")]
  }

  lemma {:induction false} JoinMerged(vs: seq<string>)
    ensures Join(Merged(vs), ", ") == Join(vs, ", ")
  {
  }

  /** Without `sf` and `key` the lines may always be merged. */
  lemma {:induction false} MergedPlain(id: ComponentId, vs: seq<string>)
    requires OneOfEachKind(id.params) && Sf !in id.params && KeyOf(id.params).None?
    ensures SameValue(BuildField(id, Merged(vs)), BuildField(id, vs))
  {
    hide ApplyParams, Join, OneOfEachKind, Merged;
    ParamsMean(id.params, vs);
    ParamsMean(id.params, Merged(vs));
    NoSfNoLead(id.params);
    JoinMerged(vs);
  }

  // ---- Selected members ----

  /** Each value is a dictionary with members. */
  predicate AllDictionaries(vs: seq<string>) {
    forall v <- vs :: ParseDictionary(v).Some? && ParseDictionary(v).value != []
  }

  lemma {:induction false} DictionariesMerge(vs: seq<string>)
    requires AllDictionaries(vs)
    ensures SFJ.MergeAll(vs).Some?
    decreases |vs|
  {
    hide ParseDictionary;
    if vs != [] {
      assert vs[|vs| - 1] in vs;
      DictionariesMerge(vs[..|vs| - 1]);
    }
  }

  /** The member that the last value with that key has. */
  function LastMember(vs: seq<string>, k: string): Option<ListEntry>
    decreases |vs|
  {
    if vs == [] then None
    else
      var d := ParseDictionary(vs[|vs| - 1]);
      if d.Some? && OM.HasKey(d.value, k) then OM.Get(d.value, k) else LastMember(vs[..|vs| - 1], k)
  }

  lemma {:induction false} MergedMember(vs: seq<string>, k: string)
    requires SFJ.MergeAll(vs).Some?
    ensures OM.Get(SFJ.MergeAll(vs).value, k) == LastMember(vs, k)
    decreases |vs|
  {
    hide ParseDictionary;
    if vs != [] {
      var init, last := vs[..|vs| - 1], vs[|vs| - 1];
      MergedMember(init, k);
      RT.ParsedDictionary(last);
      var d, e := SFJ.MergeAll(init).value, ParseDictionary(last).value;
      if OM.HasKey(e, k) {
        var i :| 0 <= i < |e| && e[i].0 == k;
        OM.GetAt(e, i);
        OM.GetPutAllLast(d, e, i);
      } else {
        OM.GetPutAllOther(d, e, k);
      }
    }
  }

  function Selected(e: Option<ListEntry>): seq<string> {
    if e.None? then [] else [SerMembers(false, AsMembers([e.value]))]
  }

  lemma {:induction false} OneSelection(v: string, k: string)
    requires ParseDictionary(v).Some?
    ensures KeyValues([v], k) == Ok(Selected(OM.Get(ParseDictionary(v).value, k)))
  {
    hide ParseDictionary, OM.Get;
    var e := OM.Get(ParseDictionary(v).value, k);
    NoSelection(k);
    assert [v][1..] == [] && [v][0] == v;
    assert KeyValueOf(v, k) == Ok(if e.None? then None else SerList([e.value]));
    assert e.Some? ==> Selected(e) + [] == Selected(e);
  }

  /** Of all selected values the merged line has the last one. */
  lemma {:induction false} LastSelection(vs: seq<string>, k: string)
    requires AllDictionaries(vs)
    ensures KeyValues(vs, k).Ok?
    ensures var all := KeyValues(vs, k).value;
            Selected(LastMember(vs, k)) == if all == [] then [] else [all[|all| - 1]]
    decreases |vs|
  {
    hide ParseDictionary, KeyValues, SerMembers, OM.Get;
    if vs == [] {
      NoSelection(k);
    } else {
      var init, last := vs[..|vs| - 1], vs[|vs| - 1];
      assert vs == init + [last] && last in vs;
      LastSelection(init, k);
      OneSelection(last, k);
      KeyValuesAppend(init, [last], k);
      assert OM.Get(ParseDictionary(last).value, k).Some? <==> OM.HasKey(ParseDictionary(last).value, k);
    }
  }

  lemma {:induction false} NoSelection(k: string)
    ensures KeyValues([], k) == Ok([])
  {
  }

  lemma {:induction false} NoneBlank(vs: seq<string>)
    requires AllDictionaries(vs)
    ensures forall v <- vs :: !Blank(v)
  {
    hide ParseDictionary, Blank;
    forall v <- vs ensures !Blank(v) {
      if Blank(v) { BlankValue(v, ""); }
    }
  }

  /** With `key`, lines that are dictionaries with members may be merged exactly if at most one of them
      has the member: unmerged, the values of all of them count, merged only the last. */
  lemma {:induction false} MergedKeyDictionaries(id: ComponentId, vs: seq<string>)
    requires OneOfEachKind(id.params) && KeyOf(id.params).Some? && forall p <- id.params :: !Unsupported(p)
    requires vs != [] && AllDictionaries(vs)
    ensures KeyValues(vs, KeyOf(id.params).value).Ok?
    ensures SameValue(BuildField(id, Merged(vs)), BuildField(id, vs)) <==>
      |KeyValues(vs, KeyOf(id.params).value).value| <= 1
  {
    hide ApplyParams, OneOfEachKind, ParseDictionary, KeyValues, KeyOf, SfLeads, Blank, Join, AllDictionaries;
    hide LastMember;
    hide SFJ.MergeAll, Selected;
    var k, line := KeyOf(id.params).value, Join(vs, ", ");
    ParamsMean(id.params, vs);
    ParamsMean(id.params, Merged(vs));
    DictionariesMerge(vs);
    SFJ.JoinAllIsMerge(vs);
    MergedMember(vs, k);
    OneSelection(line, k);
    LastSelection(vs, k);
    NoneBlank(vs);
    LineNotBlank(line);
    var all := KeyValues(vs, k).value;
    LongerThanLast(all);
    assert Merged(vs) == [line];
  }

  lemma {:induction false} LineNotBlank(line: string)
    requires ParseDictionary(line).Some? && ParseDictionary(line).value != []
    ensures !Blank(line)
  {
    hide ParseDictionary, Blank;
    if Blank(line) { BlankValue(line, ""); }
  }

  lemma {:induction false} LongerThanLast(all: seq<string>)
    ensures var last := if all == [] then [] else [all[|all| - 1]];
            Join(all, ", ") == Join(last, ", ") <==> |all| <= 1
  {
    if |all| > 1 {
      var init, x := all[..|all| - 1], all[|all| - 1];
      assert all == init + [x];
      JoinSnoc(init, x, ", ");
      assert Join([x], ", ") == x;
      assert |Join(all, ", ")| > |x|;
    } else if |all| == 1 {
      assert all == [all[0]];
    }
  }

  // ---- Blank lines ----

  lemma {:induction false} KeyNeedsDictionaries(vs: seq<string>, k: string)
    requires KeyValues(vs, k).Ok?
    ensures forall v <- vs :: ParseDictionary(v).Some?
  {
    hide ParseDictionary, OM.Get, SerMembers;
    if vs != [] {
      KeyNeedsDictionaries(vs[1..], k);
      assert KeyValueOf(vs[0], k).Ok?;
      assert vs == [vs[0]] + vs[1..];
    }
  }

  lemma {:induction false} BlankOrMembers(v: string)
    requires ParseDictionary(v).Some?
    ensures Blank(v) <==> ParseDictionary(v).value == []
  {
    hide ParseMembers, ValidEntry;
    RT.ParsedDictionary(v);
  }

  /** A blank line behind a comma. */
  lemma {:induction false} CommaThenBlank(a: string, b: string)
    requires ParseDictionary(a).Some? && ParseDictionary(a).value != [] && Blank(b)
    ensures ParseDictionary(a + ", " + b).None?
  {
    hide ParseMembers, Run;
    RT.ParsedDictionary(a);
    var t, u := ", " + b, Skip(a, IsSp);
    assert a + ", " + b == a + t;
    SFJ.LeadingSpaces(a, t);
    BlankBehindComma(u, b);
  }

  lemma {:induction false} BlankBehindComma(a: string, b: string)
    requires ParseMembers(true, a).Some? && a != "" && Blank(b)
    ensures ParseMembers(true, a + (", " + b)).None?
    decreases |a|
  {
    hide Run, Skip, ParseMember, ParseMembers, Blank;
    var t := ", " + b;
    SFJ.MembersTaken(true, a);
    SFJ.MemberMore(true, a, t);
    var m := ParseMember(true, a).value;
    SFJ.SkipMore(m.1, t, IsOws);
    var r := Skip(m.1, IsOws);
    if ParseMembers(true, a + t).Some? { SFJ.MembersTaken(true, a + t); }
    if r == "" {
      assert r + t == t && t[1..] == " " + b;
      BlankSkipped(b);
    } else {
      assert (r + t)[1..] == r[1..] + t;
      SFJ.SkipMore(r[1..], t, IsOws);
      BlankBehindComma(Skip(r[1..], IsOws), b);
    }
  }

  lemma {:induction false} BlankSkipped(b: string)
    requires Blank(b)
    ensures Skip(" " + b, IsOws) == ""
  {
    var s := " " + b;
    assert Run(b, IsSp) == |b|;
    assert forall i | 0 < i < |s| :: s[i] == b[i - 1];
    RunIs(s, IsOws, |s|);
  }

  predicate StartsVisibly(s: string) {
    var u := Skip(s, IsSp);
    u != "" && !IsOws(u[0])
  }

  lemma {:induction false} LinesStart(vs: seq<string>)
    requires |vs| > 1 && forall v <- vs :: ParseDictionary(v).Some?
    ensures StartsVisibly(Join(vs, ", "))
  {
    hide ParseMembers, Run, IsOws;
    var v, t := vs[0], ", " + Join(vs[1..], ", ");
    assert v in vs && Join(vs, ", ") == v + t;
    if Skip(v, IsSp) == "" {
      BlankInFront(v, t);
    } else {
      SFJ.LeadingSpaces(v, t);
      SFJ.MembersStart(true, Skip(v, IsSp));
    }
  }

  lemma {:induction false} BlankInFront(v: string, t: string)
    requires Blank(v) && StartsWith(t, ',')
    ensures Skip(v + t, IsSp) == t && !IsOws(t[0])
  {
    var n := Run(v, IsSp);
    assert n == |v|;
    RunIs(v + t, IsSp, n);
    assert (v + t)[n..] == t;
  }

  /** A blank line among others spoils the merged line. */
  lemma {:induction false} BlankBreaks(vs: seq<string>)
    requires |vs| > 1 && (forall v <- vs :: ParseDictionary(v).Some?) && exists v <- vs :: Blank(v)
    ensures ParseDictionary(Join(vs, ", ")).None?
  {
    hide ParseMembers, Run, IsOws, Skip, Join;
    var v, rest := vs[0], vs[1..];
    assert v in vs && vs == [v] + rest;
    JoinCons(v, rest, ", ");
    var w := Join(rest, ", ");
    assert v + ", " + w == v + (", " + w);
    BlankOrMembers(v);
    if Blank(v) {
      SFJ.BlankThenComma(v, ", " + w);
    } else if |rest| == 1 {
      assert rest == [rest[0]];
      SingleJoin(rest[0]);
      CommaThenBlank(v, w);
    } else {
      BlankBreaks(rest);
      LinesStart(rest);
      RT.ParsedDictionary(v);
      var u := Skip(v, IsSp);
      SFJ.LeadingSpaces(v, ", " + w);
      assert u + ", " + w == u + (", " + w);
      if ParseMembers(true, u + ", " + w).Some? { RestReads(true, u, w); }
    }
  }

  lemma {:induction false} NotBlankWithComma(vs: seq<string>)
    requires |vs| > 1
    ensures !Blank(Join(vs, ", "))
  {
    var s := Join(vs, ", ");
    assert s[|vs[0]|] == ',';
  }

  lemma {:induction false} KeyRefused(v: string, k: string)
    requires ParseDictionary(v).None?
    ensures KeyValues([v], k).Err?
  {
    hide ParseDictionary;
  }

  lemma {:induction false} BlankLines(id: ComponentId, vs: seq<string>)
    requires OneOfEachKind(id.params) && KeyOf(id.params).Some? && forall p <- id.params :: !Unsupported(p)
    requires |vs| > 1 && KeyValues(vs, KeyOf(id.params).value).Ok? && exists v <- vs :: Blank(v)
    ensures SameValue(BuildField(id, Merged(vs)), BuildField(id, vs)) <==> SfLeads(id.params)
  {
    hide ApplyParams, OneOfEachKind, ParseDictionary, KeyValues, KeyOf, SfLeads, Blank, Join;
    var k, line := KeyOf(id.params).value, Join(vs, ", ");
    ParamsMean(id.params, vs);
    ParamsMean(id.params, Merged(vs));
    KeyNeedsDictionaries(vs, k);
    BlankBreaks(vs);
    KeyRefused(line, k);
  }

  /** With `key`, lines that are accepted one by one may be merged into one exactly if there is only
      one; or none is blank and at most one has the member; or one is blank and `sf` comes first, so
      that nothing is accepted either way. */
  lemma {:induction false} MergedKeyExactly(id: ComponentId, vs: seq<string>)
    requires OneOfEachKind(id.params) && KeyOf(id.params).Some? && forall p <- id.params :: !Unsupported(p)
    requires vs != [] && KeyValues(vs, KeyOf(id.params).value).Ok?
    ensures SameValue(BuildField(id, Merged(vs)), BuildField(id, vs)) <==>
      || |vs| == 1
      || ((forall v <- vs :: !Blank(v)) && |KeyValues(vs, KeyOf(id.params).value).value| <= 1)
      || ((exists v <- vs :: Blank(v)) && SfLeads(id.params))
  {
    hide OneOfEachKind, ParseDictionary, KeyValues, KeyOf, SfLeads, Blank, BuildField, Join;
    if |vs| == 1 {
      SingleJoin(vs[0]);
      assert vs == [vs[0]];
      assert Merged(vs) == vs;
    } else if exists v <- vs :: Blank(v) {
      BlankLines(id, vs);
    } else {
      KeyNeedsDictionaries(vs, KeyOf(id.params).value);
      forall v <- vs ensures ParseDictionary(v).value != [] { BlankOrMembers(v); }
      MergedKeyDictionaries(id, vs);
    }
  }

  // ---- Lists in canonical form ----

  /** Each value is a list with members. */
  predicate AllLists(vs: seq<string>) {
    forall v <- vs :: ParseList(v).Some? && ParseList(v).value != []
  }

  lemma {:induction false} ListsJoin(a: string, b: string)
    requires ParseList(a).Some? && ParseList(a).value != [] && ParseList(b).Some? && ParseList(b).value != []
    ensures ParseList(a + ", " + b) == Some(ParseList(a).value + ParseList(b).value)
  {
    hide Run, Skip, ParseMembers;
    RT.ParsedList(a);
    RT.ParsedList(b);
    var u, v := Skip(a, IsSp), Skip(b, IsSp);
    SFJ.LeadingSpaces(a, ", " + b);
    assert a + ", " + b == a + (", " + b);
    assert u + ", " + b == u + (", " + b);
    SFJ.MembersJoin(false, u, b);
    assert Entries(ParseMembers(false, u).value + ParseMembers(false, v).value)
        == Entries(ParseMembers(false, u).value) + Entries(ParseMembers(false, v).value);
  }

  lemma {:induction false} SerJoin(asDict: bool, ms: seq<(string, ListEntry)>, ns: seq<(string, ListEntry)>)
    requires ms != [] && ns != []
    ensures SerMembers(asDict, ms + ns) == SerMembers(asDict, ms) + ", " + SerMembers(asDict, ns)
  {
    hide SerMember;
    var all := ms + ns;
    if |ms| == 1 {
      assert all[1..] == ns;
    } else {
      assert all[1..] == ms[1..] + ns;
      SerJoin(asDict, ms[1..], ns);
      var x, y, z := SerMember(asDict, ms[0]) + ", ", SerMembers(asDict, ms[1..]), SerMembers(asDict, ns);
      assert x + (y + ", " + z) == (x + y) + ", " + z;
    }
  }

  /** The canonical form of merged lists is the join of the canonical forms. */
  lemma {:induction false} ListsMerge(vs: seq<string>)
    requires vs != [] && AllLists(vs)
    ensures SfValues(vs).Ok?
    ensures ParseList(Join(vs, ", ")).Some? && ParseList(Join(vs, ", ")).value != []
    ensures SfValue(Join(vs, ", ")) == Ok(Join(SfValues(vs).value, ", "))
  {
    hide ParseList, SerMembers, ParseDictionary;
    var v := vs[0];
    assert v in vs;
    if |vs| == 1 {
      assert vs[1..] == [] && vs == [v];
      assert SfValues(vs[1..]) == Ok([]);
      assert SfValues(vs).value == [SfValue(v).value];
    } else {
      var rest := Join(vs[1..], ", ");
      ListsMerge(vs[1..]);
      ListsJoin(v, rest);
      var l, m := ParseList(v).value, ParseList(rest).value;
      assert AsMembers(l + m) == AsMembers(l) + AsMembers(m);
      SerJoin(false, AsMembers(l), AsMembers(m));
      JoinCons(v, vs[1..], ", ");
      assert vs == [v] + vs[1..];
      JoinCons(SfValue(v).value, SfValues(vs[1..]).value, ", ");
    }
  }

  /** With `sf` and without `key`, lines that are lists may always be merged. */
  lemma {:induction false} MergedLists(id: ComponentId, vs: seq<string>)
    requires OneOfEachKind(id.params) && Sf in id.params && KeyOf(id.params).None?
    requires vs != [] && AllLists(vs)
    ensures SameValue(BuildField(id, Merged(vs)), BuildField(id, vs))
  {
    hide ApplyParams, OneOfEachKind, SfValue, Join, AllLists, KeyOf;
    ParamsMean(id.params, vs);
    ParamsMean(id.params, Merged(vs));
    NoKeyNoLead(id.params);
    ListsMerge(vs);
    hide SfValues, SfLeads;
    OneCanonical(Join(vs, ", "));
    SingleJoin(SfValue(Join(vs, ", ")).value);
  }

  lemma {:induction false} OneCanonical(v: string)
    requires SfValue(v).Ok?
    ensures SfValues([v]) == Ok([SfValue(v).value])
  {
    hide SfValue;
    var one, none: seq<string> := [v], [];
    assert one[1..] == none && one[0] == v;
    assert SfValues(none) == Ok(none);
    assert [SfValue(v).value] + none == [SfValue(v).value];
    assert SfValues(one) == Ok([SfValue(v).value] + none);
  }

  lemma {:induction false} SingleJoin(v: string)
    ensures Join([v], ", ") == v
  {
  }

  // ---- Dictionaries in canonical form ----

  /** The members that `sf` writes for a value that reads as a dictionary.  If it reads as a list too,
      `sf` keeps the list, with a member for each time that a key occurs. */
  function Written(v: string): seq<(string, ListEntry)> {
    if ParseList(v).Some? then
      var flags := SFJ.AsFlags(ParseMembers(false, Skip(v, IsSp)).value);
      if flags.Some? then flags.value else []
    else if ParseDictionary(v).Some? then ParseDictionary(v).value
    else []
  }

  function AllWritten(vs: seq<string>): seq<(string, ListEntry)>
    decreases |vs|
  {
    if vs == [] then [] else AllWritten(vs[..|vs| - 1]) + Written(vs[|vs| - 1])
  }

  lemma {:induction false} FlagsSerialise(ms: seq<(string, ListEntry)>)
    requires SFJ.AsFlags(ms).Some?
    ensures |SFJ.AsFlags(ms).value| == |ms|
    ensures SerMembers(true, SFJ.AsFlags(ms).value) == SerMembers(false, ms)
  {
    hide ValidKey, SerParams;
    if ms != [] {
      FlagsSerialise(ms[1..]);
      var fs := SFJ.AsFlags(ms).value;
      assert fs[1..] == SFJ.AsFlags(ms[1..]).value;
      assert SerMember(true, fs[0]) == SerMember(false, ms[0]);
    }
  }

  lemma {:induction false} ListKeepsMembers(v: string)
    requires ParseList(v).Some?
    ensures AsMembers(ParseList(v).value) == ParseMembers(false, Skip(v, IsSp)).value
  {
    hide ParseMembers, Skip, ValidEntry;
    RT.ParsedMembers(false, Skip(v, IsSp));
    var ms := ParseMembers(false, Skip(v, IsSp)).value;
    forall i | 0 <= i < |ms| ensures AsMembers(Entries(ms))[i] == ms[i] {
      assert ms[i] in ms;
    }
  }

  /** `sf` writes these members, and the dictionary is what they say when the last one counts. */
  lemma {:induction false} WrittenMembers(v: string)
    requires ParseDictionary(v).Some? && ParseDictionary(v).value != []
    ensures Written(v) != [] && SfValue(v) == Ok(SerMembers(true, Written(v)))
    ensures ParseDictionary(v).value == OM.PutAll([], Written(v))
  {
    hide ParseMembers, Skip, SerMembers, SFJ.AsFlags, ValidEntry, OM.PutAll;
    RT.ParsedDictionary(v);
    if ParseList(v).Some? {
      RT.ParsedList(v);
      SFJ.MembersBothWays(Skip(v, IsSp));
      var ms := ParseMembers(false, Skip(v, IsSp)).value;
      FlagsSerialise(ms);
      ListKeepsMembers(v);
      RT.ParsedMembers(false, Skip(v, IsSp));
    } else {
      var d := ParseDictionary(v).value;
      OM.PutAllFresh([], d);
      assert [] + d == d;
    }
  }

  /** The merged dictionary. */
  lemma {:induction false} MergeWritten(vs: seq<string>)
    requires AllDictionaries(vs) && SFJ.MergeAll(vs).Some?
    ensures SFJ.MergeAll(vs).value == OM.PutAll([], AllWritten(vs))
    decreases |vs|
  {
    hide ParseDictionary, Written;
    if vs != [] {
      var init, last := vs[..|vs| - 1], vs[|vs| - 1];
      assert last in vs;
      MergeWritten(init);
      WrittenMembers(last);
      OM.MergeCollapses(OM.PutAll([], AllWritten(init)), Written(last));
      OM.PutAllAppend([], AllWritten(init), Written(last));
    }
  }

  /** The lines in canonical form, joined. */
  lemma {:induction false} JoinWritten(vs: seq<string>)
    requires vs != [] && AllDictionaries(vs)
    ensures AllWritten(vs) != [] && SfValues(vs).Ok?
    ensures Join(SfValues(vs).value, ", ") == SerMembers(true, AllWritten(vs))
    decreases |vs|
  {
    hide ParseDictionary, Written, SfValues, SerMembers, SfValue, Join;
    var init, last := vs[..|vs| - 1], vs[|vs| - 1];
    assert vs == init + [last] && last in vs;
    WrittenMembers(last);
    OneCanonical(last);
    var x := SfValue(last).value;
    if init == [] {
      assert vs == [last];
      assert AllWritten(init) == [] && [] + Written(last) == Written(last);
      SingleJoin(x);
    } else {
      JoinWritten(init);
      SfValuesAppend(init, [last]);
      JoinSnoc(SfValues(init).value, x, ", ");
      SerJoin(true, AllWritten(init), Written(last));
    }
  }

  function Weight(d: Dictionary): nat {
    if d == [] then 0 else |SerMember(true, d[0])| + 2 + Weight(d[1..])
  }

  lemma {:induction false} SerLength(d: Dictionary)
    requires d != []
    ensures |SerMembers(true, d)| + 2 == Weight(d)
  {
    hide SerMember;
    if |d| > 1 { SerLength(d[1..]); } else { assert Weight(d[1..]) == 0; }
  }

  lemma {:induction false} PutWeight(d: Dictionary, k: string, e: ListEntry)
    ensures Weight(OM.Put(d, k, e)) <= Weight(d) + |SerMember(true, (k, e))| + 2
    ensures OM.HasKey(d, k) ==> Weight(OM.Put(d, k, e)) < Weight(d) + |SerMember(true, (k, e))| + 2
  {
    hide SerMember;
    var r := OM.Put(d, k, e);
    if d == [] {
      assert r[1..] == [];
    } else if d[0].0 == k {
      assert r[1..] == d[1..];
    } else {
      PutWeight(d[1..], k, e);
      assert r[1..] == OM.Put(d[1..], k, e);
      assert OM.HasKey(d, k) ==> OM.HasKey(d[1..], k) by {
        if OM.HasKey(d, k) {
          var i :| 0 <= i < |d| && d[i].0 == k;
          assert d[1..][i - 1].0 == k;
        }
      }
    }
  }

  lemma {:induction false} PutAllWeight(d: Dictionary, n: Dictionary)
    requires OM.UniqueKeys(d)
    ensures Weight(OM.PutAll(d, n)) <= Weight(d) + Weight(n)
    ensures !OM.UniqueKeys(d + n) ==> Weight(OM.PutAll(d, n)) < Weight(d) + Weight(n)
    decreases n
  {
    hide SerMember, OM.UniqueKeys, OM.Put, OM.HasKey;
    if n == [] {
      assert d + n == d;
    } else {
      var k, e, rest := n[0].0, n[0].1, n[1..];
      var p := OM.Put(d, k, e);
      PutWeight(d, k, e);
      OM.PutUnique(d, k, e);
      PutAllWeight(p, rest);
      if !OM.HasKey(d, k) {
        assert p == d + [n[0]];
        assert p + rest == d + n;
      }
    }
  }

  /** Inserting members one after the other keeps the text exactly if no key occurs twice. */
  lemma {:induction false} CollapseExactly(d: Dictionary)
    requires d != []
    ensures OM.PutAll([], d) != []
    ensures SerMembers(true, OM.PutAll([], d)) == SerMembers(true, d) <==> OM.UniqueKeys(d)
  {
    hide SerMember, SerMembers, OM.PutAll, Weight;
    var none: Dictionary := [];
    assert none + d == d;
    PutAllSome(d);
    SerLength(d);
    SerLength(OM.PutAll(none, d));
    PutAllWeight(none, d);
    assert Weight(none) == 0 by { NoWeight(); }
    if OM.UniqueKeys(d) { OM.PutAllFresh(none, d); }
  }

  lemma {:induction false} PutAllSome(d: Dictionary)
    requires d != []
    ensures OM.PutAll([], d) != []
  {
    var one := OM.Put([], d[0].0, d[0].1);
    SFJ.PutAllNonEmpty(one, d[1..]);
  }

  lemma {:induction false} NoWeight()
    ensures Weight([]) == 0
  {
  }

  // ---- How a merged line reads ----

  /** A member in front of a comma that reads as a dictionary member, and as a list member with what
      comes behind it, reads as a list member. */
  lemma {:induction false} ListMemberBack(s: string, t: string)
    requires StartsWith(t, ',') && ParseMember(true, s).Some? && ParseMember(false, s + t).Some?
    requires var x := ParseMember(true, s).value.1; x != "" ==> x[0] in " \t,"
    requires var y := ParseMember(false, s + t).value.1; y != "" ==> y[0] in " \t,"
    ensures ParseMember(false, s).Some? && ParseMember(false, s).value.1 == ParseMember(true, s).value.1
  {
    hide ParseParams, ParseItems, ParseKey, ValidKey, ParseBare, ParseItem, SFJ.IsFlag;
    SFJ.MemberMore(true, s, t);
    SFJ.MemberBothWays(s + t);
    var x := ParseMember(true, s).value.1;
    assert (x + t)[0] == if x == "" then ',' else x[0];
    assert SFJ.IsFlag(ParseMember(false, s + t).value.0);
    FlagBack(s, t);
    SFJ.MemberMore(false, s, t);
    assert x + t == ParseMember(false, s).value.1 + t;
    SameTail(x, ParseMember(false, s).value.1, t);
  }

  lemma {:induction false} SameTail(a: string, b: string, t: string)
    requires a + t == b + t
    ensures a == b
  {
    assert |a| == |b|;
    assert a == (a + t)[..|a|] && b == (b + t)[..|a|];
  }

  lemma {:induction false} FlagBack(s: string, t: string)
    requires StartsWith(t, ',') && ParseMember(true, s).Some? && ParseMember(false, s + t).Some?
    requires SFJ.IsFlag(ParseMember(false, s + t).value.0)
    requires var y := ParseMember(false, s + t).value.1; y != "" ==> y[0] in " \t,"
    ensures ParseMember(false, s).Some?
  {
    hide ParseParams, ParseItems, ParseKey, ValidKey, ParseBare;
    assert ParseKey(s).Some?;
    KeyIsNonempty(s);
    assert (s + t)[0] == s[0];
    var b := ParseBare(s + t).value;
    assert b.0.Token?;
    TokenBack(s, t);
    SFJ.BareMore(s, t);
    var c := ParseBare(s).value;
    SFJ.KeyOrToken(s);
    assert ParseKey(s).value == (c.0.token, c.1);
    if StartsWith(c.1, '=') {
      assert (c.1 + t)[0] == '=';
      NoParamsThere(c.1 + t);
    }
  }

  lemma {:induction false} KeyIsNonempty(s: string)
    requires ParseKey(s).Some?
    ensures s != ""
  {
  }

  lemma {:induction false} TokenBack(s: string, t: string)
    requires s != "" && ParseBare(s + t).Some? && ParseBare(s + t).value.0.Token?
    ensures ParseBare(s).Some?
  {
    hide ParseUnsigned, ParseStringBody, ParseDate, ParseDisplay, SplitOnce, Base64.Decode, Run;
    assert (s + t)[0] == s[0];
  }

  lemma {:induction false} NoParamsThere(s: string)
    requires s != "" && s[0] != ';'
    ensures ParseParams(s, []) == Some(([], s))
  {
  }

  lemma {:induction false} RestDelimited(asDict: bool, s: string)
    requires ParseMembers(asDict, s).Some? && s != ""
    ensures ParseMember(asDict, s).Some?
    ensures var x := ParseMember(asDict, s).value.1; x != "" ==> x[0] in " \t,"
  {
    hide ParseMember, Run;
    SFJ.MembersTaken(asDict, s);
    SFJ.SkipHead(ParseMember(asDict, s).value.1);
  }

  lemma {:induction false} DictionaryMemberBack(s: string, t: string)
    requires StartsWith(t, ',') && ParseMember(false, s).Some? && ParseMember(true, s + t).Some?
    requires var x := ParseMember(false, s).value.1; x != "" ==> x[0] in " \t,"
    requires var y := ParseMember(true, s + t).value.1; y != "" ==> y[0] in " \t,"
    ensures ParseMember(true, s).Some? && ParseMember(true, s).value.1 == ParseMember(false, s).value.1
  {
    hide ParseMember, SFJ.IsFlag;
    SFJ.MemberMore(false, s, t);
    var x := ParseMember(false, s).value.1;
    assert (x + t)[0] == if x == "" then ',' else x[0];
    SFJ.MemberBothWays(s + t);
    SFJ.MemberBothWays(s);
  }

  /** A value that reads one way, and the other way with more behind it, reads the other way too. */
  lemma {:induction false} ReadsBack(asDict: bool, s: string, t: string)
    requires StartsWith(t, ',') && s != ""
    requires ParseMembers(!asDict, s).Some? && ParseMembers(asDict, s + t).Some?
    ensures ParseMembers(asDict, s).Some?
    decreases |s|
  {
    hide ParseMember, ParseMembers, Skip, Run;
    SFJ.MembersTaken(!asDict, s);
    SFJ.MembersTaken(asDict, s + t);
    RestDelimited(!asDict, s);
    RestDelimited(asDict, s + t);
    if asDict { DictionaryMemberBack(s, t); } else { ListMemberBack(s, t); }
    SFJ.MemberMore(asDict, s, t);
    var x := ParseMember(asDict, s).value.1;
    SFJ.SkipMore(x, t, IsOws);
    var r := Skip(x, IsOws);
    if r == "" {
      LastMemberParses(asDict, s);
    } else {
      assert (r + t)[1..] == r[1..] + t;
      SFJ.SkipMore(r[1..], t, IsOws);
      ReadsBack(asDict, Skip(r[1..], IsOws), t);
      assert r == "," + r[1..];
      SFJ.MembersPut(asDict, s, r[1..]);
    }
  }

  lemma {:induction false} LastMemberParses(asDict: bool, s: string)
    requires s != "" && ParseMember(asDict, s).Some? && Skip(ParseMember(asDict, s).value.1, IsOws) == ""
    ensures ParseMembers(asDict, s).Some?
  {
    hide ParseMember, Skip;
  }

  /** If a value reads one way and the whole line does, then so does the rest of the line. */
  lemma {:induction false} RestReads(asDict: bool, a: string, b: string)
    requires a != "" && ParseMembers(asDict, a).Some? && ParseMembers(asDict, a + ", " + b).Some?
    requires Skip(b, IsSp) != "" && !IsOws(Skip(b, IsSp)[0])
    ensures ParseMembers(asDict, Skip(b, IsSp)).Some?
    decreases |a|
  {
    hide Run, Skip, ParseMember, ParseMembers;
    var t := ", " + b;
    assert a + t == a + ", " + b;
    SFJ.MembersTaken(asDict, a);
    SFJ.MembersTaken(asDict, a + t);
    SFJ.MemberMore(asDict, a, t);
    var m := ParseMember(asDict, a).value;
    SFJ.SkipMore(m.1, t, IsOws);
    var r := Skip(m.1, IsOws);
    if r == "" {
      assert r + t == t && t[1..] == " " + b;
      SFJ.SkipBoth(b);
    } else {
      assert (r + t)[1..] == r[1..] + t;
      SFJ.SkipMore(r[1..], t, IsOws);
      var u := Skip(r[1..], IsOws);
      assert u + t == u + ", " + b;
      RestReads(asDict, u, b);
    }
  }

  /** The value reads as a list, or as a dictionary, with members. */
  predicate Reads(asDict: bool, v: string) {
    Skip(v, IsSp) != "" && ParseMembers(asDict, Skip(v, IsSp)).Some?
  }

  predicate AllRead(vs: seq<string>) {
    forall v <- vs :: Reads(false, v) || Reads(true, v)
  }

  lemma {:induction false} ReadsExactly(v: string)
    ensures Reads(false, v) <==> ParseList(v).Some? && ParseList(v).value != []
    ensures Reads(true, v) <==> ParseDictionary(v).Some? && ParseDictionary(v).value != []
  {
    hide ParseMembers, Skip, ValidEntry;
    if ParseList(v).Some? { RT.ParsedList(v); }
    if ParseDictionary(v).Some? { RT.ParsedDictionary(v); }
  }

  lemma {:induction false} JoinStarts(vs: seq<string>)
    requires vs != [] && AllRead(vs)
    ensures var s := Skip(Join(vs, ", "), IsSp); s != "" && !IsOws(s[0])
  {
    hide ParseMembers, Skip, Run, IsOws;
    var v := vs[0];
    assert v in vs;
    if Reads(false, v) {
      SFJ.MembersStart(false, Skip(v, IsSp));
    } else {
      SFJ.MembersStart(true, Skip(v, IsSp));
    }
    if |vs| > 1 {
      SFJ.LeadingSpaces(v, ", " + Join(vs[1..], ", "));
      assert Join(vs, ", ") == v + (", " + Join(vs[1..], ", "));
    }
  }

  /** A merged line only reads in a way in which each line reads. */
  lemma {:induction false} MergedReads(asDict: bool, vs: seq<string>)
    requires vs != [] && AllRead(vs) && Reads(asDict, Join(vs, ", "))
    ensures forall v <- vs :: Reads(asDict, v)
  {
    hide ParseMembers, Skip, Run, IsOws;
    var v := vs[0];
    assert v in vs;
    if |vs| > 1 {
      var rest := Join(vs[1..], ", ");
      var t, u := ", " + rest, Skip(v, IsSp);
      assert Join(vs, ", ") == v + t && u + t == u + ", " + rest;
      SFJ.LeadingSpaces(v, t);
      if !Reads(asDict, v) { ReadsBack(asDict, u, t); }
      JoinStarts(vs[1..]);
      RestReads(asDict, u, rest);
      MergedReads(asDict, vs[1..]);
    }
    assert vs == [v] + vs[1..];
  }

  // ---- The exact condition for `sf` ----

  /** All lines are dictionaries and no key is written twice. */
  ghost predicate NoKeyTwice(vs: seq<string>) {
    AllDictionaries(vs) && OM.UniqueKeys(AllWritten(vs))
  }

  lemma {:induction false} CanonicalReads(vs: seq<string>)
    requires SfValues(vs).Ok?
    ensures AllRead(vs)
  {
    hide ParseList, ParseDictionary, Reads;
    if vs != [] {
      CanonicalReads(vs[1..]);
      ReadsExactly(vs[0]);
      assert vs == [vs[0]] + vs[1..];
      assert SfValue(vs[0]).Ok?;
      NothingSerialised();
    }
  }

  lemma {:induction false} NothingSerialised()
    ensures SerList([]).None? && SerDictionary([]).None?
  {
  }

  /** With `sf`, lines that are accepted one by one may be merged into one exactly if all of them are
      lists, or all are dictionaries and no key is written twice. */
  lemma {:induction false} MergedLineExactly(vs: seq<string>)
    requires vs != [] && SfValues(vs).Ok?
    ensures SfValue(Join(vs, ", ")) == Ok(Join(SfValues(vs).value, ", ")) <==> AllLists(vs) || NoKeyTwice(vs)
  {
    hide ParseList, ParseDictionary, SerMembers, SfValues, Join, Reads, AllWritten, OM.PutAll, SFJ.MergeAll;
    var line := Join(vs, ", ");
    CanonicalReads(vs);
    ReadsExactly(line);
    forall v <- vs
      ensures Reads(false, v) <==> ParseList(v).Some? && ParseList(v).value != []
      ensures Reads(true, v) <==> ParseDictionary(v).Some? && ParseDictionary(v).value != []
    {
      ReadsExactly(v);
    }
    if AllLists(vs) {
      ListsMerge(vs);
    } else {
      if Reads(false, line) { MergedReads(false, vs); }
      NonemptyLine(line);
      if AllDictionaries(vs) {
        DictionariesMerge(vs);
        SFJ.JoinAllIsMerge(vs);
        MergeWritten(vs);
        JoinWritten(vs);
        CollapseExactly(AllWritten(vs));
        assert ParseList(line).None?;
      } else if Reads(true, line) {
        MergedReads(true, vs);
      }
    }
  }

  /** Values that hold no member are refused. */
  lemma {:induction false} NonemptyLine(v: string)
    ensures SfValue(v).Ok? ==> Reads(false, v) || Reads(true, v)
    ensures Reads(true, v) && ParseList(v).Some? ==> Reads(false, v)
  {
    hide ParseMembers, Skip, ValidEntry;
    ReadsExactly(v);
    NothingSerialised();
    if ParseList(v).Some? { RT.ParsedList(v); }
  }

  lemma {:induction false} MergedCanonicalExactly(id: ComponentId, vs: seq<string>)
    requires OneOfEachKind(id.params) && Sf in id.params && KeyOf(id.params).None?
    requires forall p <- id.params :: !Unsupported(p)
    requires vs != [] && SfValues(vs).Ok?
    ensures SameValue(BuildField(id, Merged(vs)), BuildField(id, vs)) <==> AllLists(vs) || NoKeyTwice(vs)
  {
    hide ApplyParams, OneOfEachKind, SfValue, Join, AllLists, NoKeyTwice, KeyOf;
    ParamsMean(id.params, vs);
    ParamsMean(id.params, Merged(vs));
    NoKeyNoLead(id.params);
    MergedLineExactly(vs);
    var line := Join(vs, ", ");
    if SfValue(line).Ok? {
      OneCanonical(line);
      SingleJoin(SfValue(line).value);
    } else {
      OneRefused(line);
    }
    hide SfValues, SfLeads;
  }

  lemma {:induction false} OneRefused(v: string)
    requires SfValue(v).Err?
    ensures SfValues([v]).Err?
  {
    hide SfValue;
  }
}
