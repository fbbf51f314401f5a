/** Query parameters and their ordering: Rust's byte-wise `Ord` on strings and the stable
    `sort_by` on keys that canonicalisation relies on. */
module KeySort {
  import opened Text

  /** One `(key, value)` pair of a callback's query, each as UTF-8 bytes. */
  datatype QueryParam = QueryParam(key: Bytes, value: Bytes)

  /** Rust's `Ord` on strings, byte by byte: `a` comes first (or equals `b`) exactly when it
      is a prefix of `b` or has the smaller byte where they first differ. */
  predicate LessEq(a: Bytes, b: Bytes): (r: bool)
    ensures r <==> (a <= b ||
      exists k | 0 <= k < |a| && k < |b| :: a[..k] == b[..k] && a[k] < b[k])
  {
    if a == [] then true
    else if b == [] then false
    else if a[0] < b[0] then
      assert a[..0] == b[..0];
      true
    else if a[0] == b[0] then
      assert a <= b <==> a[1..] <= b[1..];
      assert (exists k | 0 <= k < |a| && k < |b| :: a[..k] == b[..k] && a[k] < b[k]) <==>
        (exists k | 0 <= k < |a| - 1 && k < |b| - 1 ::
          a[1..][..k] == b[1..][..k] && a[1..][k] < b[1..][k]) by {
        forall k | 0 <= k < |a| - 1 && k < |b| - 1
          ensures (a[..k + 1] == b[..k + 1]) == (a[1..][..k] == b[1..][..k])
        {
          PrefixStep(a, k);
          PrefixStep(b, k);
        }
      }
      LessEq(a[1..], b[1..])
    else
      assert forall k | 0 < k < |a| && k < |b| :: a[..k] != b[..k] by {
        forall k | 0 < k < |a| && k < |b| ensures a[..k][0] != b[..k][0] { }
      }
      false
  }

  /** A prefix of length `k + 1` is the first byte followed by a prefix of the rest. */
  lemma PrefixStep(a: Bytes, k: nat)
    requires k < |a|
    ensures a[..k + 1] == [a[0]] + a[1..][..k]
  {
  }

  lemma {:induction false} LessEqReflexive(a: Bytes)
    ensures LessEq(a, a)
  {
    if a != [] { LessEqReflexive(a[1..]); }
  }

  lemma {:induction false} LessEqAntisymmetric(a: Bytes, b: Bytes)
    requires LessEq(a, b) && LessEq(b, a)
    ensures a == b
  {
    if a != [] && b != [] {
      LessEqAntisymmetric(a[1..], b[1..]);
      assert a == [a[0]] + a[1..] && b == [b[0]] + b[1..];
    }
  }

  lemma {:induction false} LessEqTotal(a: Bytes, b: Bytes)
    ensures LessEq(a, b) || LessEq(b, a)
  {
    if a != [] && b != [] && a[0] == b[0] { LessEqTotal(a[1..], b[1..]); }
  }

  lemma {:induction false} LessEqTransitive(a: Bytes, b: Bytes, c: Bytes)
    requires LessEq(a, b) && LessEq(b, c)
    ensures LessEq(a, c)
  {
    if a != [] && a[0] == b[0] && b[0] == c[0] { LessEqTransitive(a[1..], b[1..], c[1..]); }
  }

  /** Keys never decrease from left to right. */
  ghost predicate Sorted(s: seq<QueryParam>)
  {
    forall i, j | 0 <= i < j < |s| :: LessEq(s[i].key, s[j].key)
  }

  /** The pairs of `s` with key `k`, in their order in `s`. */
  function WithKey(s: seq<QueryParam>, k: Bytes): seq<QueryParam>
  {
    if s == [] then []
    else (if s[0].key == k then [s[0]] else []) + WithKey(s[1..], k)
  }

  /** Places `x` before the first pair whose key is not smaller, so that `x` stays ahead of
      the pairs with its own key. */
  function Insert(x: QueryParam, s: seq<QueryParam>): seq<QueryParam>
  {
    if s == [] || LessEq(x.key, s[0].key) then [x] + s
    else [s[0]] + Insert(x, s[1..])
  }

  lemma {:induction false} InsertMultiset(x: QueryParam, s: seq<QueryParam>)
    ensures multiset(Insert(x, s)) == multiset(s) + multiset{x}
  {
    if s != [] && !LessEq(x.key, s[0].key) {
      InsertMultiset(x, s[1..]);
      assert s == [s[0]] + s[1..];
    }
  }

  lemma {:induction false} InsertSorted(x: QueryParam, s: seq<QueryParam>)
    requires Sorted(s)
    ensures Sorted(Insert(x, s))
  {
    if s == [] {
    } else if LessEq(x.key, s[0].key) {
      forall j | 0 < j < |s| + 1
        ensures LessEq(x.key, ([x] + s)[j].key)
      {
        if j > 1 { LessEqTransitive(x.key, s[0].key, s[j - 1].key); }
      }
    } else {
      SortedTail(s);
      InsertSorted(x, s[1..]);
      LessEqTotal(x.key, s[0].key);
      InsertAfterHead(x, s);
    }
  }

  /** When `x` goes after the head of a sorted list, the head stays below everything in the
      rest after inserting. */
  lemma InsertAfterHead(x: QueryParam, s: seq<QueryParam>)
    requires Sorted(s) && s != [] && LessEq(s[0].key, x.key)
    ensures forall j | 0 <= j < |Insert(x, s[1..])| :: LessEq(s[0].key, Insert(x, s[1..])[j].key)
  {
    var t := Insert(x, s[1..]);
    InsertMultiset(x, s[1..]);
    forall j | 0 <= j < |t|
      ensures LessEq(s[0].key, t[j].key)
    {
      assert t[j] in multiset(t);
      if t[j] != x {
        assert t[j] in multiset(s[1..]);
        var k :| 0 <= k < |s[1..]| && s[1..][k] == t[j];
        assert s[k + 1] == t[j];
      }
    }
  }

  /** Inserting `x` puts it first among the pairs with its key. */
  lemma {:induction false} InsertWithKey(x: QueryParam, s: seq<QueryParam>, k: Bytes)
    ensures WithKey(Insert(x, s), k) == (if x.key == k then [x] else []) + WithKey(s, k)
  {
    if s == [] || LessEq(x.key, s[0].key) {
      assert ([x] + s)[1..] == s;
    } else {
      var t := Insert(x, s[1..]);
      var head := if s[0].key == k then [s[0]] else [];
      assert x.key != s[0].key by { LessEqReflexive(x.key); }
      assert Insert(x, s) == [s[0]] + t;
      assert WithKey(Insert(x, s), k) == head + WithKey(t, k) by {
        assert ([s[0]] + t)[1..] == t;
      }
      assert WithKey(s, k) == head + WithKey(s[1..], k);
      InsertWithKey(x, s[1..], k);
    }
  }

  /** Rust's `sort_by(|a, b| a.0.cmp(&b.0))`: ordered by key, a permutation, and stable:
      the pairs that share a key keep their relative order. */
  function SortByKey(s: seq<QueryParam>): (r: seq<QueryParam>)
    ensures Sorted(r)
    ensures multiset(r) == multiset(s)
    ensures forall k :: WithKey(r, k) == WithKey(s, k)
  {
    if s == [] then []
    else
      var t := SortByKey(s[1..]);
      InsertSorted(s[0], t);
      InsertMultiset(s[0], t);
      assert s == [s[0]] + s[1..];
      assert forall k :: WithKey(Insert(s[0], t), k) == WithKey(s, k) by {
        forall k ensures WithKey(Insert(s[0], t), k) == WithKey(s, k) {
          InsertWithKey(s[0], t, k);
        }
      }
      Insert(s[0], t)
  }

  /** No two different pairs in `m` share a key (repeats of one whole pair are allowed). */
  ghost predicate KeysDetermine(m: multiset<QueryParam>)
  {
    forall p, q | p in m && q in m :: p.key == q.key ==> p == q
  }

  lemma KeysDetermineSub(m: multiset<QueryParam>, n: multiset<QueryParam>)
    requires m <= n && KeysDetermine(n)
    ensures KeysDetermine(m)
  {
    forall p | p in m ensures p in n { }
  }

  /** When keys determine pairs, sorting leaves no choice: two sorted arrangements of the
      same pairs are equal. */
  lemma {:induction false} SortedUnique(a: seq<QueryParam>, b: seq<QueryParam>)
    requires Sorted(a) && Sorted(b)
    requires multiset(a) == multiset(b)
    requires KeysDetermine(multiset(a))
    ensures a == b
  {
    if a == [] {
      assert |multiset(b)| == 0;
    } else {
      SameHead(a, b);
      SortedTail(a);
      SortedTail(b);
      SameTails(a, b);
      SortedUnique(a[1..], b[1..]);
      assert a == [a[0]] + a[1..] && b == [b[0]] + b[1..];
    }
  }

  /** Removing the same first pair leaves the same pairs, among which keys still determine
      pairs. */
  lemma SameTails(a: seq<QueryParam>, b: seq<QueryParam>)
    requires a != [] && b != [] && a[0] == b[0]
    requires multiset(a) == multiset(b)
    requires KeysDetermine(multiset(a))
    ensures multiset(a[1..]) == multiset(b[1..])
    ensures KeysDetermine(multiset(a[1..]))
  {
    assert a == [a[0]] + a[1..] && b == [b[0]] + b[1..];
    assert multiset(a) == multiset{a[0]} + multiset(a[1..]);
    assert multiset(b) == multiset{b[0]} + multiset(b[1..]);
    forall p | p in multiset(a[1..]) ensures p in multiset(a) { }
  }

  /** Two sorted arrangements of the same pairs, where keys determine pairs, start alike. */
  lemma SameHead(a: seq<QueryParam>, b: seq<QueryParam>)
    requires Sorted(a) && Sorted(b) && a != []
    requires multiset(a) == multiset(b)
    requires KeysDetermine(multiset(a))
    ensures b != [] && a[0] == b[0]
  {
    assert a[0] in multiset(b);
    assert b[0] in multiset(a);
    var i :| 0 <= i < |a| && a[i] == b[0];
    var j :| 0 <= j < |b| && b[j] == a[0];
    assert LessEq(a[0].key, b[0].key) by {
      if i == 0 { LessEqReflexive(a[0].key); }
    }
    assert LessEq(b[0].key, a[0].key) by {
      if j == 0 { LessEqReflexive(b[0].key); }
    }
    LessEqAntisymmetric(a[0].key, b[0].key);
  }

  lemma SortedTail(s: seq<QueryParam>)
    requires Sorted(s) && s != []
    ensures Sorted(s[1..])
  {
    forall i, j | 0 <= i < j < |s| - 1
      ensures LessEq(s[1..][i].key, s[1..][j].key)
    {
      assert s[1..][i] == s[i + 1] && s[1..][j] == s[j + 1];
    }
  }
}
