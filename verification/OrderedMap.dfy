/** `IndexMap`: insertion-ordered key/value pairs; inserting under a present key keeps its place. */
module OrderedMap {
  import opened Wrappers

  ghost function Keys<V>(m: seq<(string, V)>): set<string> {
    set i | 0 <= i < |m| :: m[i].0
  }

  ghost predicate UniqueKeys<V>(m: seq<(string, V)>) {
    forall i, j | 0 <= i < j < |m| :: m[i].0 != m[j].0
  }

  predicate HasKey<V>(m: seq<(string, V)>, k: string) {
    exists i | 0 <= i < |m| :: m[i].0 == k
  }

  function Get<V>(m: seq<(string, V)>, k: string): (r: Option<V>)
    ensures r.Some? <==> HasKey(m, k)
    ensures r.Some? ==> exists i | 0 <= i < |m| :: m[i] == (k, r.value)
  {
    if m == [] then None
    else if m[0].0 == k then Some(m[0].1)
    else
      assert forall i | 0 <= i < |m[1..]| :: m[1..][i] == m[i + 1];
      Get(m[1..], k)
  }

  function Put<V>(m: seq<(string, V)>, k: string, v: V): (r: seq<(string, V)>)
    ensures !HasKey(m, k) ==> r == m + [(k, v)]
  {
    if m == [] then [(k, v)]
    else if m[0].0 == k then [(k, v)] + m[1..]
    else
      assert forall i | 0 <= i < |m[1..]| :: m[1..][i] == m[i + 1];
      [m[0]] + Put(m[1..], k, v)
  }

  /** Inserts the pairs of `n` one after the other. */
  function PutAll<V>(m: seq<(string, V)>, n: seq<(string, V)>): seq<(string, V)>
    decreases n
  {
    if n == [] then m else PutAll(Put(m, n[0].0, n[0].1), n[1..])
  }

  lemma {:induction false} GetAt<V>(m: seq<(string, V)>, i: nat)
    requires UniqueKeys(m) && i < |m|
    ensures Get(m, m[i].0) == Some(m[i].1)
  {
  }

  /** Inserting under a present key changes the value at its first position and nothing else. */
  lemma {:induction false} PutAt<V>(m: seq<(string, V)>, k: string, v: V, i: nat)
    requires i < |m| && m[i].0 == k
    requires forall j | 0 <= j < i :: m[j].0 != k
    ensures Put(m, k, v) == m[i := (k, v)]
  {
    if i > 0 {
      PutAt(m[1..], k, v, i - 1);
    }
  }

  function IndexOf<V>(m: seq<(string, V)>, k: string): (i: nat)
    requires HasKey(m, k)
    ensures i < |m| && m[i].0 == k
    ensures forall j | 0 <= j < i :: m[j].0 != k
  {
    if m[0].0 == k then 0
    else
      assert HasKey(m[1..], k) by {
        var i :| 0 <= i < |m| && m[i].0 == k;
        assert m[1..][i - 1].0 == k;
      }
      var r := IndexOf(m[1..], k);
      assert forall j | 0 < j <= r :: m[j] == m[1..][j - 1];
      r + 1
  }

  lemma {:induction false} PutUnique<V>(m: seq<(string, V)>, k: string, v: V)
    requires UniqueKeys(m)
    ensures UniqueKeys(Put(m, k, v))
  {
    if HasKey(m, k) {
      PutAt(m, k, v, IndexOf(m, k));
    }
  }

  lemma {:induction false} PutKeys<V>(m: seq<(string, V)>, k: string, v: V)
    ensures Keys(Put(m, k, v)) == Keys(m) + {k}
  {
    if HasKey(m, k) {
      var i := IndexOf(m, k);
      PutAt(m, k, v, i);
      var r := Put(m, k, v);
      assert forall j | 0 <= j < |m| :: r[j].0 == m[j].0;
      assert forall x | x in Keys(m) :: x in Keys(r);
      assert m[i].0 in Keys(m);
    } else {
      KeysSnoc(m, k, v);
    }
  }

  lemma {:induction false} KeysCount<V>(m: seq<(string, V)>)
    requires UniqueKeys(m)
    ensures |Keys(m)| == |m|
  {
    if m != [] {
      KeysHead(m);
      KeysCount(m[1..]);
      assert m[0].0 !in Keys(m[1..]);
    }
  }

  lemma {:induction false} KeysHead<V>(m: seq<(string, V)>)
    requires m != []
    ensures Keys(m) == {m[0].0} + Keys(m[1..])
  {
    forall k | k in Keys(m) ensures k in {m[0].0} + Keys(m[1..]) {
      var i :| 0 <= i < |m| && m[i].0 == k;
      if i > 0 { assert m[1..][i - 1].0 == k; }
    }
    forall k | k in Keys(m[1..]) ensures k in Keys(m) {
      var i :| 0 <= i < |m[1..]| && m[1..][i].0 == k;
      assert m[i + 1].0 == k;
    }
  }

  lemma {:induction false} KeysSnoc<V>(m: seq<(string, V)>, k: string, v: V)
    ensures Keys(m + [(k, v)]) == Keys(m) + {k}
  {
    var r := m + [(k, v)];
    assert r[|m|].0 == k;
    forall j | j in Keys(m) ensures j in Keys(r) {
      var i :| 0 <= i < |m| && m[i].0 == j;
      assert r[i].0 == j;
    }
  }

  lemma {:induction false} GetPut<V>(m: seq<(string, V)>, k: string, v: V, j: string)
    ensures Get(Put(m, k, v), j) == if j == k then Some(v) else Get(m, j)
  {
    if m != [] && m[0].0 != k {
      GetPut(m[1..], k, v, j);
    }
  }

  lemma {:induction false} GetPutAllOther<V>(m: seq<(string, V)>, n: seq<(string, V)>, k: string)
    requires forall p <- n :: p.0 != k
    ensures Get(PutAll(m, n), k) == Get(m, k)
    decreases n
  {
    if n != [] {
      assert n[0] in n;
      GetPut(m, n[0].0, n[0].1, k);
      GetPutAllOther(Put(m, n[0].0, n[0].1), n[1..], k);
    }
  }

  lemma {:induction false} GetPutAllLast<V>(m: seq<(string, V)>, n: seq<(string, V)>, i: nat)
    requires i < |n| && forall j | i < j < |n| :: n[j].0 != n[i].0
    ensures Get(PutAll(m, n), n[i].0) == Some(n[i].1)
    decreases n
  {
    var r := Put(m, n[0].0, n[0].1);
    if i == 0 {
      GetPut(m, n[0].0, n[0].1, n[0].0);
      GetPutAllOther(r, n[1..], n[0].0);
    } else {
      GetPutAllLast(r, n[1..], i - 1);
    }
  }

  lemma {:induction false} PutAllUnique<V>(m: seq<(string, V)>, n: seq<(string, V)>)
    requires UniqueKeys(m)
    ensures UniqueKeys(PutAll(m, n))
    decreases n
  {
    if n != [] {
      PutUnique(m, n[0].0, n[0].1);
      PutAllUnique(Put(m, n[0].0, n[0].1), n[1..]);
    }
  }

  /** Inserting pairs with fresh, distinct keys appends them. */
  lemma {:induction false} PutAllFresh<V>(m: seq<(string, V)>, n: seq<(string, V)>)
    requires UniqueKeys(m + n)
    ensures PutAll(m, n) == m + n
    decreases n
  {
    if n == [] {
      assert m + n == m;
    } else {
      var k := n[0].0;
      forall i | 0 <= i < |m| ensures m[i].0 != k {
        assert (m + n)[i].0 != (m + n)[|m|].0;
      }
      assert Put(m, k, n[0].1) == m + [n[0]];
      assert m + n == (m + [n[0]]) + n[1..];
      PutAllFresh(m + [n[0]], n[1..]);
    }
  }

  lemma {:induction false} PutAllAppend<V>(m: seq<(string, V)>, a: seq<(string, V)>, b: seq<(string, V)>)
    ensures PutAll(m, a + b) == PutAll(PutAll(m, a), b)
    decreases a
  {
    if a == [] {
      assert a + b == b;
    } else {
      assert (a + b)[1..] == a[1..] + b;
      PutAllAppend(Put(m, a[0].0, a[0].1), a[1..], b);
    }
  }

  lemma {:induction false} PutTwice<V>(m: seq<(string, V)>, k: string, v: V, w: V)
    ensures Put(Put(m, k, v), k, w) == Put(m, k, w)
  {
    if m != [] && m[0].0 != k {
      PutTwice(m[1..], k, v, w);
    }
  }

  /** Overwriting a present key commutes with inserting another one. */
  lemma {:induction false} PutCommutes<V>(m: seq<(string, V)>, k: string, v: V, j: string, w: V)
    requires HasKey(m, k) && j != k
    ensures Put(Put(m, j, w), k, v) == Put(Put(m, k, v), j, w)
  {
    if m[0].0 == k {
    } else {
      var i :| 0 <= i < |m| && m[i].0 == k;
      assert m[1..][i - 1].0 == k;
      if m[0].0 != j {
        PutCommutes(m[1..], k, v, j, w);
      }
    }
  }

  lemma {:induction false} PutAfterPutAll<V>(m: seq<(string, V)>, n: seq<(string, V)>, k: string, v: V)
    requires HasKey(m, k) && !HasKey(n, k)
    ensures Put(PutAll(m, n), k, v) == PutAll(Put(m, k, v), n)
    decreases n
  {
    if n != [] {
      assert n[0].0 != k;
      assert HasKey(Put(m, n[0].0, n[0].1), k) by { GetPut(m, n[0].0, n[0].1, k); }
      assert forall i | 0 <= i < |n[1..]| :: n[1..][i] == n[i + 1];
      PutAfterPutAll(Put(m, n[0].0, n[0].1), n[1..], k, v);
      PutCommutes(m, k, v, n[0].0, n[0].1);
    }
  }

  /** Merging after one more insertion is inserting once more after the merge. */
  lemma {:induction false} PutAllPut<V>(m: seq<(string, V)>, n: seq<(string, V)>, k: string, v: V)
    requires UniqueKeys(n)
    ensures PutAll(m, Put(n, k, v)) == Put(PutAll(m, n), k, v)
    decreases n
  {
    if n == [] {
    } else if n[0].0 == k {
      assert Put(n, k, v)[1..] == n[1..];
      assert !HasKey(n[1..], k) by {
        assert forall i | 0 <= i < |n[1..]| :: n[1..][i] == n[i + 1];
      }
      assert HasKey(Put(m, k, n[0].1), k) by { GetPut(m, k, n[0].1, k); }
      PutAfterPutAll(Put(m, k, n[0].1), n[1..], k, v);
      PutTwice(m, k, n[0].1, v);
    } else {
      assert Put(n, k, v)[1..] == Put(n[1..], k, v);
      PutAllPut(Put(m, n[0].0, n[0].1), n[1..], k, v);
    }
  }

  /** Merging the insertions of `b` made separately is inserting the pairs of `b` directly. */
  lemma {:induction false} MergeCollapses<V>(m: seq<(string, V)>, b: seq<(string, V)>)
    ensures PutAll(m, PutAll([], b)) == PutAll(m, b)
    decreases |b|
  {
    if b != [] {
      var c, last := b[..|b| - 1], b[|b| - 1];
      assert b == c + [last];
      var none: seq<(string, V)> := [];
      PutAllAppend(none, c, [last]);
      PutAllAppend(m, c, [last]);
      PutAllUnique(none, c);
      MergeCollapses(m, c);
      PutAllPut(m, PutAll(none, c), last.0, last.1);
      assert PutAll(PutAll(none, c), [last]) == Put(PutAll(none, c), last.0, last.1);
      assert PutAll(PutAll(m, c), [last]) == Put(PutAll(m, c), last.0, last.1);
    }
  }
}
