/** Why a hash set finds repeated component identifiers although equality ignores parameter order. */
module Uniqueness {
  import opened ComponentId

  // ---- The order of strings, and sorting ----

  predicate Leq(a: string, b: string) {
    a == "" || (b != "" && (a[0] < b[0] || (a[0] == b[0] && Leq(a[1..], b[1..]))))
  }

  lemma {:induction false} LeqTotal(a: string, b: string)
    ensures Leq(a, b) || Leq(b, a)
  {
    if a != "" && b != "" { LeqTotal(a[1..], b[1..]); }
  }

  lemma {:induction false} LeqAntisymmetric(a: string, b: string)
    requires Leq(a, b) && Leq(b, a)
    ensures a == b
  {
    if a != "" {
      LeqAntisymmetric(a[1..], b[1..]);
      assert a == [a[0]] + a[1..] && b == [b[0]] + b[1..];
    }
  }

  lemma {:induction false} LeqTransitive(a: string, b: string, c: string)
    requires Leq(a, b) && Leq(b, c)
    ensures Leq(a, c)
  {
    if a != "" && a[0] == b[0] == c[0] { LeqTransitive(a[1..], b[1..], c[1..]); }
  }

  ghost predicate Ascending(s: seq<string>) {
    forall i, j | 0 <= i < j < |s| :: Leq(s[i], s[j])
  }

  function Insert(x: string, s: seq<string>): seq<string> {
    if s == [] then [x] else if Leq(x, s[0]) then [x] + s else [s[0]] + Insert(x, s[1..])
  }

  function Sorted(s: seq<string>): seq<string> {
    if s == [] then [] else Insert(s[0], Sorted(s[1..]))
  }

  lemma {:induction false} InsertKeeps(x: string, s: seq<string>)
    requires Ascending(s)
    ensures Ascending(Insert(x, s))
    ensures multiset(Insert(x, s)) == multiset{x} + multiset(s)
  {
    hide Leq;
    if s == [] {
    } else if Leq(x, s[0]) {
      forall j | 0 <= j < |s| ensures Leq(x, s[j]) {
        if j > 0 { LeqTransitive(x, s[0], s[j]); }
      }
    } else {
      LeqTotal(x, s[0]);
      InsertKeeps(x, s[1..]);
      assert s == [s[0]] + s[1..];
      var t := Insert(x, s[1..]);
      forall j | 0 <= j < |t| ensures Leq(s[0], t[j]) {
        assert t[j] in multiset(t);
        if t[j] != x {
          assert t[j] in multiset(s[1..]);
          var i :| 0 <= i < |s[1..]| && s[1..][i] == t[j];
          assert s[i + 1] == t[j];
        }
      }
    }
  }

  lemma {:induction false} SortedSorts(s: seq<string>)
    ensures Ascending(Sorted(s))
    ensures multiset(Sorted(s)) == multiset(s)
  {
    if s != [] {
      SortedSorts(s[1..]);
      InsertKeeps(s[0], Sorted(s[1..]));
      assert s == [s[0]] + s[1..];
    }
  }

  /** The first element of an ascending sequence is its least. */
  lemma {:induction false} HeadIsLeast(a: seq<string>, x: string)
    requires Ascending(a) && a != [] && x in a
    ensures Leq(a[0], x)
  {
    hide Leq;
    var i :| 0 <= i < |a| && a[i] == x;
    if i == 0 { LeqTotal(x, x); }
  }

  lemma {:induction false} TailMultiset(a: seq<string>)
    requires a != []
    ensures multiset(a[1..]) == multiset(a) - multiset{a[0]}
  {
    assert a == [a[0]] + a[1..];
  }

  /** Ascending sequences are determined by what they hold. */
  lemma {:induction false} AscendingUnique(a: seq<string>, b: seq<string>)
    requires Ascending(a) && Ascending(b) && multiset(a) == multiset(b)
    ensures a == b
  {
    hide Leq;
    assert |a| == |multiset(a)| && |b| == |multiset(b)|;
    if a != [] {
      assert a[0] in multiset(a) && b[0] in multiset(b);
      HeadIsLeast(a, b[0]);
      HeadIsLeast(b, a[0]);
      LeqAntisymmetric(a[0], b[0]);
      TailMultiset(a);
      TailMultiset(b);
      AscendingUnique(a[1..], b[1..]);
      assert a == [a[0]] + a[1..] && b == [b[0]] + b[1..];
    }
  }

  // ---- The order-free hash ----

  ghost predicate Distinct<T>(s: seq<T>) {
    forall i, j | 0 <= i < j < |s| :: s[i] != s[j]
  }

  lemma {:induction false} ParamTextInjective(p: ComponentParam, q: ComponentParam)
    requires ParamText(p) == ParamText(q)
    ensures p == q
  {
    match p
    case Key(v) =>
      assert ParamText(p)[0] == 'k';
      assert ParamText(p)[5..|ParamText(p)| - 1] == v;
      assert ParamText(q)[0] == 'k' && q.Key?;
      assert ParamText(q)[5..|ParamText(q)| - 1] == q.key;
    case Name(v) =>
      assert ParamText(p)[0] == 'n';
      assert ParamText(p)[6..|ParamText(p)| - 1] == v;
      assert ParamText(q)[0] == 'n' && q.Name?;
      assert ParamText(q)[6..|ParamText(q)| - 1] == q.name;
    case _ =>
      assert ParamText(p)[0] != 'k' && ParamText(p)[0] != 'n';
  }

  lemma {:induction false} DistinctCounts(s: seq<string>)
    requires Distinct(s)
    ensures forall x :: multiset(s)[x] == if x in s then 1 else 0
  {
    if s != [] {
      DistinctCounts(s[1..]);
      assert s == [s[0]] + s[1..];
    }
  }

  lemma {:induction false} TextsDistinct(ps: seq<ComponentParam>)
    requires Distinct(ps)
    ensures Distinct(ParamTexts(ps))
  {
    var ts := ParamTexts(ps);
    forall i, j | 0 <= i < j < |ts| ensures ts[i] != ts[j] {
      if ts[i] == ts[j] { ParamTextInjective(ps[i], ps[j]); }
    }
  }

  /** What the parameters contribute to a hash: their texts, sorted. */
  function HashKey(ps: seq<ComponentParam>): seq<string> {
    Sorted(ParamTexts(ps))
  }

  lemma {:induction false} SameParamsSameTexts(a: seq<ComponentParam>, b: seq<ComponentParam>)
    requires forall p <- a :: p in b
    ensures forall t <- ParamTexts(a) :: t in ParamTexts(b)
  {
    forall t <- ParamTexts(a) ensures t in ParamTexts(b) {
      var i :| 0 <= i < |a| && ParamTexts(a)[i] == t;
      assert a[i] in a;
      var j :| 0 <= j < |b| && b[j] == a[i];
      assert ParamTexts(b)[j] == t;
    }
  }

  lemma {:induction false} SameTextsSameParams(a: seq<ComponentParam>, b: seq<ComponentParam>)
    requires forall t <- ParamTexts(a) :: t in ParamTexts(b)
    ensures forall p <- a :: p in b
  {
    hide ParamText;
    forall p <- a ensures p in b {
      var i :| 0 <= i < |a| && a[i] == p;
      assert ParamTexts(a)[i] in ParamTexts(a);
      var j :| 0 <= j < |b| && ParamTexts(b)[j] == ParamTexts(a)[i];
      ParamTextInjective(a[i], b[j]);
    }
  }

  lemma {:induction false} SameSizes<T>(a: seq<T>, b: seq<T>)
    requires Distinct(a) && Distinct(b)
    requires forall p <- a :: p in b
    requires forall p <- b :: p in a
    ensures |a| == |b|
  {
    var x, y := set p | p in a, set p | p in b;
    assert x == y;
    SetSize(a);
    SetSize(b);
  }

  lemma {:induction false} SetSize<T>(a: seq<T>)
    requires Distinct(a)
    ensures |set p | p in a| == |a|
  {
    if a != [] {
      SetSize(a[1..]);
      assert (set p | p in a) == {a[0]} + (set p | p in a[1..]);
    }
  }

  /** The converse inclusion comes from the sizes. */
  lemma {:induction false} SameBack(a: seq<ComponentParam>, b: seq<ComponentParam>)
    requires Distinct(a) && Distinct(b) && SameParams(a, b)
    ensures forall p <- b :: p in a
  {
    var x, y := set p | p in a, set p | p in b;
    SetSize(a);
    SetSize(b);
    assert x <= y;
    SubsetSameSize(x, y);
    assert forall p <- b :: p in y;
  }

  lemma {:induction false} SubsetSameSize<T>(x: set<T>, y: set<T>)
    requires x <= y && |x| == |y|
    ensures x == y
  {
    assert y == x + (y - x);
    assert |y| == |x| + |y - x|;
  }

  /** The hash key is the same for two parameter sets exactly when the sets are equal. */
  lemma {:induction false} HashKeySound(a: seq<ComponentParam>, b: seq<ComponentParam>)
    requires Distinct(a) && Distinct(b)
    ensures HashKey(a) == HashKey(b) <==> SameParams(a, b)
  {
    hide Sorted, ParamText;
    var s, t := ParamTexts(a), ParamTexts(b);
    TextsDistinct(a);
    TextsDistinct(b);
    DistinctCounts(s);
    DistinctCounts(t);
    SortedSorts(s);
    SortedSorts(t);
    if SameParams(a, b) {
      SameBack(a, b);
      SameParamsSameTexts(a, b);
      SameParamsSameTexts(b, a);
      assert multiset(s) == multiset(t);
      AscendingUnique(Sorted(s), Sorted(t));
    }
    if HashKey(a) == HashKey(b) {
      assert multiset(s) == multiset(t);
      assert forall x <- s :: multiset(s)[x] == 1;
      assert forall x <- t :: multiset(t)[x] == 1;
      SameTextsSameParams(a, b);
      SameTextsSameParams(b, a);
      SameSizes(a, b);
    }
  }

  // ---- The uniqueness check ----

  /** No two identifiers are equal up to parameter order. */
  predicate UniqueIds(ids: seq<ComponentId>) {
    forall i, j | 0 <= i < j < |ids| :: !SameId(ids[i], ids[j])
  }

  /** `has_unique_elements`: inserts into a hash set, stopping at the first element already there.
      `hash` is any hash of the name and the sorted parameter texts; an insertion only compares
      with the elements of its own bucket. */
  method HasUniqueElements(ids: seq<ComponentId>, hash: ((ComponentName, seq<string>)) -> nat) returns (unique: bool)
    requires forall id <- ids :: Distinct(id.params)
    ensures unique <==> UniqueIds(ids)
  {
    hide HashKey, SameId, Distinct;
    var table: map<nat, seq<ComponentId>> := map[];
    for n := 0 to |ids|
      invariant UniqueIds(ids[..n])
      invariant Holds(table, ids[..n], hash)
    {
      var x := ids[n];
      assert ids[..n + 1] == ids[..n] + [x];
      var h := hash((x.name, HashKey(x.params)));
      var bucket := if h in table then table[h] else [];
      if exists y <- bucket :: SameId(y, x) {
        ghost var y :| y in bucket && SameId(y, x);
        assert y in ids[..n];
        return false;
      }
      OnlyInBucket(table, ids[..n], x, hash);
      InsertHolds(table, ids[..n], x, hash);
      table := table[h := bucket + [x]];
    }
    assert ids[..|ids|] == ids;
    return true;
  }

  /** The table holds exactly the identifiers inserted so far, each in its own bucket. */
  ghost predicate Holds(table: map<nat, seq<ComponentId>>, done: seq<ComponentId>,
                        hash: ((ComponentName, seq<string>)) -> nat) {
    && (forall h <- table, y <- table[h] :: y in done)
    && (forall y <- done :: hash((y.name, HashKey(y.params))) in table && y in table[hash((y.name, HashKey(y.params)))])
  }

  /** An equal identifier can only be in the same bucket. */
  lemma {:induction false} OnlyInBucket(table: map<nat, seq<ComponentId>>, done: seq<ComponentId>, x: ComponentId,
                                        hash: ((ComponentName, seq<string>)) -> nat)
    requires Holds(table, done, hash) && Distinct(x.params) && forall y <- done :: Distinct(y.params)
    requires var h := hash((x.name, HashKey(x.params)));
             forall y <- (if h in table then table[h] else []) :: !SameId(y, x)
    ensures forall y <- done :: !SameId(y, x)
  {
    hide HashKey, SameId, Distinct;
    forall y <- done ensures !SameId(y, x) {
      if SameId(y, x) { SameIdSameHash(y, x); }
    }
  }

  lemma {:induction false} InsertHolds(table: map<nat, seq<ComponentId>>, done: seq<ComponentId>, x: ComponentId,
                                       hash: ((ComponentName, seq<string>)) -> nat)
    requires Holds(table, done, hash)
    ensures var h := hash((x.name, HashKey(x.params)));
            Holds(table[h := (if h in table then table[h] else []) + [x]], done + [x], hash)
  {
    hide HashKey;
  }

  lemma {:induction false} SameIdSameHash(a: ComponentId, b: ComponentId)
    requires Distinct(a.params) && Distinct(b.params) && SameId(a, b)
    ensures a.name == b.name && HashKey(a.params) == HashKey(b.params)
  {
    HashKeySound(a.params, b.params);
  }
}
