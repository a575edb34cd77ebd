/** The values of field components with `sf` and `key`, written out. */
module FieldValues {
  import opened Wrappers
  import opened Text
  import opened StructuredFields
  import opened ComponentId
  import opened Component
  import opened Canonical
  import OM = OrderedMap

  /** With `sf` every value that is a list with members is written as a list, and every other that is a
      dictionary with members as a dictionary; anything else is refused. */
  ghost predicate Rewritten(v: string, w: Result<string>) {
    if ParseList(v).Some? && ParseList(v).value != [] then w == Ok(SerList(ParseList(v).value).value)
    else if ParseList(v).None? && ParseDictionary(v).Some? && ParseDictionary(v).value != [] then
      w == Ok(SerDictionary(ParseDictionary(v).value).value)
    else w == Err(InvalidComponentParam)
  }

  lemma {:induction false} OneRewritten(v: string)
    ensures Rewritten(v, SfValue(v))
  {
    hide ParseList, ParseDictionary, SerMembers;
  }

  /** One result for each value, or the error. */
  lemma {:induction false} SfExactly(vs: seq<string>)
    ensures SfValues(vs).Ok? ==> forall i | 0 <= i < |vs| :: Rewritten(vs[i], Ok(SfValues(vs).value[i]))
    ensures SfValues(vs).Err? ==> exists v <- vs :: Rewritten(v, Err(InvalidComponentParam))
    ensures SfValues(vs).Err? ==> SfValues(vs) == Err(InvalidComponentParam)
  {
    hide SfValue, Rewritten;
    if vs != [] {
      OneRewritten(vs[0]);
      SfExactly(vs[1..]);
      RefusedError(vs[0]);
    }
  }

  lemma {:induction false} RefusedError(v: string)
    ensures SfValue(v).Err? ==> SfValue(v) == Err(InvalidComponentParam)
  {
    hide ParseList, ParseDictionary, SerMembers;
  }

  /** The members under a key of those values that have one. */
  function Members(vs: seq<string>, k: string): seq<ListEntry>
    requires forall v <- vs :: ParseDictionary(v).Some?
  {
    if vs == [] then []
    else
      assert vs[0] in vs;
      assert forall v <- vs[1..] :: v in vs;
      var e := OM.Get(ParseDictionary(vs[0]).value, k);
      (if e.Some? then [e.value] else []) + Members(vs[1..], k)
  }

  /** With `key` every value must be a dictionary, possibly empty; the values are the members under that
      key, each written on its own without the key. */
  lemma {:induction false} KeyExactly(vs: seq<string>, k: string)
    ensures KeyValues(vs, k).Err? <==> exists v <- vs :: ParseDictionary(v).None?
    ensures KeyValues(vs, k).Err? ==> KeyValues(vs, k) == Err(InvalidComponentParam)
    ensures KeyValues(vs, k).Ok? ==>
      var es, ws := Members(vs, k), KeyValues(vs, k).value;
      |ws| == |es| && forall i | 0 <= i < |es| :: WritesEntry(es[i], ws[i])
  {
    hide ParseDictionary, SerEntry, OM.Get, WritesEntry;
    if vs != [] {
      var v, rest := vs[0], vs[1..];
      assert vs == [v] + rest;
      KeyExactly(rest, k);
      if ParseDictionary(v).Some? {
        var e := OM.Get(ParseDictionary(v).value, k);
        if e.Some? {
          EntryWritten(e.value);
          assert AsMembers([e.value]) == [("", e.value)];
        }
        if KeyValues(vs, k).Ok? { MembersCons(vs, k); }
      }
    }
  }

  lemma {:induction false} MembersCons(vs: seq<string>, k: string)
    requires vs != [] && (forall v <- vs :: ParseDictionary(v).Some?) && forall v <- vs[1..] :: ParseDictionary(v).Some?
    ensures ParseDictionary(vs[0]).Some?
    ensures var e := OM.Get(ParseDictionary(vs[0]).value, k);
            Members(vs, k) == (if e.Some? then [e.value] else []) + Members(vs[1..], k)
  {
    hide ParseDictionary, OM.Get;
    assert vs[0] in vs;
  }
}
