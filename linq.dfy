/** The LINQ operators the canonicaliser is built from, on sequences:
    OrderBy (a stable sort on a key), Distinct (with an equality comparer,
    keeping the first of each class), GroupBy (with a key comparer, groups
    in order of first appearance) and SequenceEqual.

    LINQ's hash-based sets and lookups only call the comparer's Equals on
    entries whose hash codes agree; the comparers used here are proved to
    give equal elements equal hash codes, so the hash pre-check never
    changes an outcome and is not modelled. */
module Linq {

  datatype Grouping<K, T> = Grouping(key: K, items: seq<T>)

  ghost predicate Reflexive<T(!new)>(r: (T, T) -> bool) {
    forall a :: r(a, a)
  }

  ghost predicate Symmetric<T(!new)>(r: (T, T) -> bool) {
    forall a, b :: r(a, b) ==> r(b, a)
  }

  ghost predicate Transitive<T(!new)>(r: (T, T) -> bool) {
    forall a, b, c :: r(a, b) && r(b, c) ==> r(a, c)
  }

  ghost predicate Equivalence<T(!new)>(eq: (T, T) -> bool) {
    Reflexive(eq) && Symmetric(eq) && Transitive(eq)
  }

  /** `eq` relates exactly the values that `norm` maps to one value. Every
      equivalence relation arises this way (map a value to its class). */
  ghost predicate InducedBy<K(!new), N>(eq: (K, K) -> bool, norm: K -> N) {
    forall a, b {:trigger eq(a, b)} :: eq(a, b) <==> norm(a) == norm(b)
  }

  /** A comparison that puts every two keys in some order, consistently. */
  ghost predicate TotalPreorder<K(!new)>(le: (K, K) -> bool) {
    (forall a, b :: le(a, b) || le(b, a)) && Transitive(le)
  }

  // =====================================================================
  // OrderBy

  predicate SortedBy<T, K>(s: seq<T>, key: T -> K, le: (K, K) -> bool) {
    forall i, j :: 0 <= i < j < |s| ==> le(key(s[i]), key(s[j]))
  }

  /** Inserts `x` after every element whose key is not greater than its own. */
  function Insert<T, K>(t: seq<T>, x: T, key: T -> K, le: (K, K) -> bool): (r: seq<T>)
    ensures multiset(r) == multiset(t) + multiset{x}
  {
    if |t| == 0 then [x]
    else if le(key(t[0]), key(x)) then
      assert t == [t[0]] + t[1..];
      [t[0]] + Insert(t[1..], x, key, le)
    else [x] + t
  }

  /** `s.OrderBy(key)`: the elements sorted on their keys, equal keys in
      their original order. */
  function OrderBy<T, K>(s: seq<T>, key: T -> K, le: (K, K) -> bool): (r: seq<T>)
    ensures multiset(r) == multiset(s)
  {
    if |s| == 0 then []
    else
      assert s == s[..|s| - 1] + [s[|s| - 1]];
      Insert(OrderBy(s[..|s| - 1], key, le), s[|s| - 1], key, le)
  }

  /** The elements of `s` whose key is exactly `k`, in order. */
  function WithKey<T, K(==)>(s: seq<T>, key: T -> K, k: K): seq<T> {
    if |s| == 0 then []
    else (if key(s[0]) == k then [s[0]] else []) + WithKey(s[1..], key, k)
  }

  lemma {:induction false} InsertSorted<T, K(!new)>(t: seq<T>, x: T, key: T -> K, le: (K, K) -> bool)
    requires TotalPreorder(le) && SortedBy(t, key, le)
    ensures SortedBy(Insert(t, x, key, le), key, le)
  {
    var r := Insert(t, x, key, le);
    if |t| == 0 {
    } else if le(key(t[0]), key(x)) {
      var rest := Insert(t[1..], x, key, le);
      InsertSorted(t[1..], x, key, le);
      assert r == [t[0]] + rest;
      forall j | 0 <= j < |rest| ensures le(key(t[0]), key(rest[j])) {
        assert rest[j] in multiset(rest);
        if rest[j] != x {
          assert rest[j] in multiset(t[1..]);
          var m :| 0 <= m < |t[1..]| && t[1..][m] == rest[j];
          assert t[m + 1] == rest[j];
        }
      }
    } else {
      assert r == [x] + t;
      assert le(key(x), key(t[0]));
      forall j | 0 <= j < |t| ensures le(key(x), key(t[j])) {
        if j > 0 {
          assert le(key(t[0]), key(t[j]));
        }
      }
    }
  }

  /** OrderBy yields a sequence sorted on the key. */
  lemma {:induction false} OrderBySorted<T, K(!new)>(s: seq<T>, key: T -> K, le: (K, K) -> bool)
    requires TotalPreorder(le)
    ensures SortedBy(OrderBy(s, key, le), key, le)
  {
    if |s| > 0 {
      OrderBySorted(s[..|s| - 1], key, le);
      InsertSorted(OrderBy(s[..|s| - 1], key, le), s[|s| - 1], key, le);
    }
  }

  lemma {:induction false} WithKeyAppend<T, K>(a: seq<T>, b: seq<T>, key: T -> K, k: K)
    ensures WithKey(a + b, key, k) == WithKey(a, key, k) + WithKey(b, key, k)
  {
    if |a| == 0 {
      assert a + b == b;
    } else {
      var head := if key(a[0]) == k then [a[0]] else [];
      assert WithKey(a + b, key, k) == head + WithKey(a[1..] + b, key, k) by {
        assert a + b == [a[0]] + (a[1..] + b);
        WithKeyCons(a[0], a[1..] + b, key, k);
      }
      assert WithKey(a, key, k) == head + WithKey(a[1..], key, k) by {
        assert a == [a[0]] + a[1..];
        WithKeyCons(a[0], a[1..], key, k);
      }
      WithKeyAppend(a[1..], b, key, k);
      AppendAssociative(head, WithKey(a[1..], key, k), WithKey(b, key, k));
    }
  }

  lemma {:induction false} WithKeyNone<T, K>(s: seq<T>, key: T -> K, k: K)
    requires forall i :: 0 <= i < |s| ==> key(s[i]) != k
    ensures WithKey(s, key, k) == []
  {
    if |s| > 0 {
      WithKeyNone(s[1..], key, k);
    }
  }

  lemma SortedTail<T, K>(t: seq<T>, key: T -> K, le: (K, K) -> bool)
    requires |t| > 0 && SortedBy(t, key, le)
    ensures SortedBy(t[1..], key, le)
  {
    forall i, j | 0 <= i < j < |t| - 1 ensures le(key(t[1..][i]), key(t[1..][j])) {
      assert t[1..][i] == t[i + 1] && t[1..][j] == t[j + 1];
    }
  }

  lemma WithKeyCons<T, K>(h: T, t: seq<T>, key: T -> K, k: K)
    ensures WithKey([h] + t, key, k) == (if key(h) == k then [h] else []) + WithKey(t, key, k)
  {
    assert ([h] + t)[0] == h;
    assert ([h] + t)[1..] == t;
  }

  lemma {:induction false} InsertWithKey<T, K(!new)>(t: seq<T>, x: T, key: T -> K, le: (K, K) -> bool, k: K)
    requires TotalPreorder(le) && SortedBy(t, key, le)
    ensures WithKey(Insert(t, x, key, le), key, k)
         == WithKey(t, key, k) + (if key(x) == k then [x] else [])
  {
    if |t| == 0 {
      WithKeyCons(x, [], key, k);
      assert [x] + [] == [x];
    } else if le(key(t[0]), key(x)) {
      var rest := Insert(t[1..], x, key, le);
      var head := if key(t[0]) == k then [t[0]] else [];
      var extra := if key(x) == k then [x] else [];
      assert WithKey(rest, key, k) == WithKey(t[1..], key, k) + extra by {
        SortedTail(t, key, le);
        InsertWithKey(t[1..], x, key, le, k);
      }
      assert WithKey(Insert(t, x, key, le), key, k) == head + WithKey(rest, key, k) by {
        WithKeyCons(t[0], rest, key, k);
      }
      assert WithKey(t, key, k) == head + WithKey(t[1..], key, k) by {
        WithKeyCons(t[0], t[1..], key, k);
        assert t == [t[0]] + t[1..];
      }
      AppendAssociative(head, WithKey(t[1..], key, k), extra);
    } else {
      InsertWithKeyFront(t, x, key, le, k);
    }
  }

  /** `x` goes in front of a sorted `t` whose head ranks above it, so no
      element of `t` carries the key of `x`. */
  lemma InsertWithKeyFront<T, K(!new)>(t: seq<T>, x: T, key: T -> K, le: (K, K) -> bool, k: K)
    requires TotalPreorder(le) && SortedBy(t, key, le)
    requires |t| > 0 && !le(key(t[0]), key(x))
    ensures WithKey([x] + t, key, k) == WithKey(t, key, k) + (if key(x) == k then [x] else [])
  {
    WithKeyCons(x, t, key, k);
    if key(x) == k {
      assert le(key(x), key(x));
      forall i | 0 <= i < |t| ensures key(t[i]) != k {
        if i > 0 {
          assert le(key(t[0]), key(t[i]));
        }
      }
      WithKeyNone(t, key, k);
      assert [x] + [] == [] + [x];
    } else {
      assert [] + WithKey(t, key, k) == WithKey(t, key, k) + [];
    }
  }

  lemma OrderBySingle<T, K>(x: T, key: T -> K, le: (K, K) -> bool)
    ensures OrderBy([x], key, le) == [x]
  {
    assert [x][..0] == [];
  }

  /** The key tells apart any two different elements of `s`. */
  ghost predicate KeyInjective<T, K>(s: seq<T>, key: T -> K) {
    forall a, b :: a in s && b in s && key(a) == key(b) ==> a == b
  }

  ghost predicate Antisymmetric<K(!new)>(le: (K, K) -> bool) {
    forall a, b :: le(a, b) && le(b, a) ==> a == b
  }

  /** Under an antisymmetric total preorder, a multiset whose elements the
      key tells apart has only one sorted arrangement. */
  lemma {:induction false} SortedUnique<T, K(!new)>(x: seq<T>, y: seq<T>, key: T -> K, le: (K, K) -> bool)
    requires TotalPreorder(le) && Antisymmetric(le) && KeyInjective(x, key)
    requires SortedBy(x, key, le) && SortedBy(y, key, le) && multiset(x) == multiset(y)
    ensures x == y
    decreases |x|
  {
    assert |x| == |multiset(x)| == |multiset(y)| == |y|;
    if |x| > 0 {
      SortedHeadsAgree(x, y, key, le);
      TailsSameMultiset(x, y);
      SortedTail(x, key, le);
      SortedTail(y, key, le);
      assert KeyInjective(x[1..], key) by {
        assert forall a :: a in x[1..] ==> a in x;
      }
      SortedUnique(x[1..], y[1..], key, le);
      assert x == [x[0]] + x[1..] && y == [y[0]] + y[1..];
    }
  }

  lemma TailsSameMultiset<T>(x: seq<T>, y: seq<T>)
    requires |x| > 0 && |y| > 0 && x[0] == y[0] && multiset(x) == multiset(y)
    ensures multiset(x[1..]) == multiset(y[1..])
  {
    assert x == [x[0]] + x[1..] && y == [y[0]] + y[1..];
    assert multiset(x) == multiset{x[0]} + multiset(x[1..]);
    assert multiset(y) == multiset{y[0]} + multiset(y[1..]);
    assert multiset(x[1..]) == multiset(x) - multiset{x[0]};
    assert multiset(y[1..]) == multiset(y) - multiset{y[0]};
  }

  /** Two sorted arrangements of one multiset start with the same element. */
  lemma SortedHeadsAgree<T, K(!new)>(x: seq<T>, y: seq<T>, key: T -> K, le: (K, K) -> bool)
    requires TotalPreorder(le) && Antisymmetric(le) && KeyInjective(x, key)
    requires SortedBy(x, key, le) && SortedBy(y, key, le) && multiset(x) == multiset(y)
    requires |x| > 0 && |y| > 0
    ensures x[0] == y[0]
  {
    assert x[0] in multiset(y) && y[0] in multiset(x);
    var j :| 0 <= j < |y| && y[j] == x[0];
    var i :| 0 <= i < |x| && x[i] == y[0];
    if j > 0 {
      assert le(key(y[0]), key(y[j]));
    } else {
      assert le(key(y[0]), key(y[0]));
    }
    if i > 0 {
      assert le(key(x[0]), key(x[i]));
    } else {
      assert le(key(x[0]), key(x[0]));
    }
    assert key(x[0]) == key(y[0]);
  }

  /** Under an antisymmetric total preorder, when the key tells the
      elements apart, OrderBy's result does not depend on the input order. */
  lemma OrderByOfPermutation<T, K(!new)>(s: seq<T>, t: seq<T>, key: T -> K, le: (K, K) -> bool)
    requires TotalPreorder(le) && Antisymmetric(le)
    requires multiset(s) == multiset(t) && KeyInjective(s, key)
    ensures OrderBy(s, key, le) == OrderBy(t, key, le)
  {
    var x := OrderBy(s, key, le);
    OrderBySorted(s, key, le);
    OrderBySorted(t, key, le);
    assert KeyInjective(x, key) by {
      forall a | a in x ensures a in s {
        assert a in multiset(x);
      }
    }
    SortedUnique(x, OrderBy(t, key, le), key, le);
  }

  /** OrderBy is stable: for every key, the elements carrying exactly that
      key keep their relative order. */
  lemma {:induction false} OrderByStable<T, K(!new)>(s: seq<T>, key: T -> K, le: (K, K) -> bool, k: K)
    requires TotalPreorder(le)
    ensures WithKey(OrderBy(s, key, le), key, k) == WithKey(s, key, k)
  {
    if |s| > 0 {
      var init, last := s[..|s| - 1], s[|s| - 1];
      assert s == init + [last];
      WithKeyAppend(init, [last], key, k);
      WithKeyCons(last, [], key, k);
      assert [last] + [] == [last];
      OrderByStable(init, key, le, k);
      OrderBySorted(init, key, le);
      InsertWithKey(OrderBy(init, key, le), last, key, le, k);
    }
  }

  lemma InsertSkip<T, K>(t: seq<T>, j: nat, x: T, key: T -> K, le: (K, K) -> bool)
    requires j < |t| && le(key(t[j]), key(x))
    ensures Insert(t[j..], x, key, le) == [t[j]] + Insert(t[j + 1..], x, key, le)
  {
    assert t[j..][0] == t[j];
    assert t[j..][1..] == t[j + 1..];
  }

  lemma InsertStop<T, K>(t: seq<T>, j: nat, x: T, key: T -> K, le: (K, K) -> bool)
    requires j <= |t| && (j == |t| || !le(key(t[j]), key(x)))
    ensures Insert(t[j..], x, key, le) == [x] + t[j..]
  {
    if j < |t| {
      assert t[j..][0] == t[j];
    }
  }

  /** Finds where OrderBy's insertion puts `x` into `r`. */
  method InsertionPoint<T, K>(r: seq<T>, x: T, key: T -> K, le: (K, K) -> bool) returns (j: nat)
    ensures j <= |r| && Insert(r, x, key, le) == r[..j] + [x] + r[j..]
  {
    j := 0;
    while j < |r| && le(key(r[j]), key(x))
      invariant 0 <= j <= |r|
      invariant Insert(r, x, key, le) == r[..j] + Insert(r[j..], x, key, le)
    {
      InsertAdvance(r, j, x, key, le);
      j := j + 1;
    }
    InsertStop(r, j, x, key, le);
  }

  /** One step of the search: an element not after `x` moves to the front. */
  lemma InsertAdvance<T, K>(r: seq<T>, j: nat, x: T, key: T -> K, le: (K, K) -> bool)
    requires j < |r| && le(key(r[j]), key(x))
    ensures r[..j] + Insert(r[j..], x, key, le) == r[..j + 1] + Insert(r[j + 1..], x, key, le)
  {
    var rest := Insert(r[j + 1..], x, key, le);
    assert Insert(r[j..], x, key, le) == [r[j]] + rest by {
      InsertSkip(r, j, x, key, le);
    }
    assert r[..j] + [r[j]] == r[..j + 1];
    AppendAssociative(r[..j], [r[j]], rest);
  }

  lemma AppendAssociative<T>(a: seq<T>, b: seq<T>, c: seq<T>)
    ensures a + (b + c) == (a + b) + c
  {
  }

  /** A head apart from every element of a pairwise-apart tail keeps the
      whole sequence pairwise apart. */
  lemma ConsNoTwoEqual<T>(h: T, r: seq<T>, rel: (T, T) -> bool)
    requires NoTwoEqual(r, rel) && forall y :: y in r ==> !rel(h, y)
    ensures NoTwoEqual([h] + r, rel)
  {
    var t := [h] + r;
    forall i, j | 0 <= i < j < |t| ensures !rel(t[i], t[j]) {
      assert t[j] == r[j - 1];
      if i > 0 {
        assert t[i] == r[i - 1];
      } else {
        assert r[j - 1] in r;
      }
    }
  }

  lemma {:induction false} InsertNoTwoEqual<T, K>(t: seq<T>, x: T, key: T -> K, le: (K, K) -> bool, rel: (T, T) -> bool)
    requires NoTwoEqual(t, rel) && forall y :: y in t ==> !rel(y, x) && !rel(x, y)
    ensures NoTwoEqual(Insert(t, x, key, le), rel)
  {
    if |t| == 0 {
    } else if le(key(t[0]), key(x)) {
      var tail := t[1..];
      assert NoTwoEqual(tail, rel) by {
        forall i, j | 0 <= i < j < |tail| ensures !rel(tail[i], tail[j]) {
          assert tail[i] == t[i + 1] && tail[j] == t[j + 1];
        }
      }
      assert forall y :: y in tail ==> y in t;
      InsertNoTwoEqual(tail, x, key, le, rel);
      var r := Insert(tail, x, key, le);
      forall y | y in r ensures !rel(t[0], y) {
        assert multiset(r) == multiset(tail) + multiset{x};
        assert y in multiset(r);
        if y != x {
          assert y in tail;
          var k :| 0 <= k < |tail| && tail[k] == y;
          assert t[k + 1] == y;
        }
      }
      ConsNoTwoEqual(t[0], r, rel);
    } else {
      ConsNoTwoEqual(x, t, rel);
    }
  }

  /** Sorting keeps a sequence whose elements are pairwise apart under a
      symmetric relation pairwise apart. */
  lemma {:induction false} OrderByNoTwoEqual<T(!new), K>(s: seq<T>, key: T -> K, le: (K, K) -> bool, rel: (T, T) -> bool)
    requires Symmetric(rel) && NoTwoEqual(s, rel)
    ensures NoTwoEqual(OrderBy(s, key, le), rel)
  {
    if |s| > 0 {
      var init := s[..|s| - 1];
      var x := s[|s| - 1];
      assert NoTwoEqual(init, rel);
      OrderByNoTwoEqual(init, key, le, rel);
      var sorted := OrderBy(init, key, le);
      forall y | y in sorted ensures !rel(y, x) && !rel(x, y) {
        assert y in multiset(sorted);
        var k :| 0 <= k < |init| && init[k] == y;
        assert s[k] == y;
      }
      InsertNoTwoEqual(sorted, x, key, le, rel);
    }
  }

  /** The insertion sort behind OrderBy. */
  method StableSort<T, K>(s: seq<T>, key: T -> K, le: (K, K) -> bool) returns (r: seq<T>)
    ensures r == OrderBy(s, key, le)
  {
    r := [];
    for i := 0 to |s|
      invariant r == OrderBy(s[..i], key, le)
    {
      var x := s[i];
      OrderBySnoc(s, i, key, le);
      var j := InsertionPoint(r, x, key, le);
      r := r[..j] + [x] + r[j..];
    }
    assert s[..|s|] == s;
  }

  lemma OrderBySnoc<T, K>(s: seq<T>, i: nat, key: T -> K, le: (K, K) -> bool)
    requires i < |s|
    ensures OrderBy(s[..i + 1], key, le) == Insert(OrderBy(s[..i], key, le), s[i], key, le)
  {
    assert s[..i + 1][..i] == s[..i];
  }

  // =====================================================================
  // Distinct

  /** `s.Distinct(comparer)`: walks `s`, keeping an element unless it is
      equal to one already kept. */
  function Distinct<T(==)>(s: seq<T>, eq: (T, T) -> bool): (r: seq<T>)
    ensures forall y :: y in r ==> y in s
  {
    if |s| == 0 then []
    else
      var seen := Distinct(s[..|s| - 1], eq);
      var x := s[|s| - 1];
      if exists y :: y in seen && eq(y, x) then seen else seen + [x]
  }

  /** Two elements the comparer tells apart both survive. */
  lemma DistinctOfTwo<T>(x: T, y: T, eq: (T, T) -> bool)
    requires !eq(x, y)
    ensures Distinct([x, y], eq) == [x, y]
  {
    var s := [x, y];
    assert s[..1] == [x] && s[1] == y;
    assert [x][..0] == [];
    assert Distinct([x], eq) == [x];
    assert !exists z :: z in [x] && eq(z, y);
  }

  /** `r` can be obtained from `s` by deleting elements. */
  predicate IsSubsequence<T(==)>(r: seq<T>, s: seq<T>)
    decreases |s|
  {
    if |r| == 0 then true
    else if |s| == 0 then false
    else (r[|r| - 1] == s[|s| - 1] && IsSubsequence(r[..|r| - 1], s[..|s| - 1]))
         || IsSubsequence(r, s[..|s| - 1])
  }

  lemma {:induction false} SubsequenceMembers<T>(r: seq<T>, s: seq<T>)
    requires IsSubsequence(r, s)
    ensures forall y :: y in r ==> y in s
    decreases |s|
  {
    if |r| > 0 {
      var s' := s[..|s| - 1];
      if r[|r| - 1] == s[|s| - 1] && IsSubsequence(r[..|r| - 1], s') {
        SubsequenceMembers(r[..|r| - 1], s');
        assert r == r[..|r| - 1] + [r[|r| - 1]];
      } else {
        SubsequenceMembers(r, s');
      }
    }
  }

  /** Deleting elements from a sorted sequence leaves it sorted. */
  lemma {:induction false} SubsequenceSorted<T, K>(r: seq<T>, s: seq<T>, key: T -> K, le: (K, K) -> bool)
    requires IsSubsequence(r, s) && SortedBy(s, key, le)
    ensures SortedBy(r, key, le)
    decreases |s|
  {
    if |r| > 0 {
      var s' := s[..|s| - 1];
      assert SortedBy(s', key, le);
      if r[|r| - 1] == s[|s| - 1] && IsSubsequence(r[..|r| - 1], s') {
        var r' := r[..|r| - 1];
        SubsequenceSorted(r', s', key, le);
        SubsequenceMembers(r', s');
        forall i, j | 0 <= i < j < |r| ensures le(key(r[i]), key(r[j])) {
          if j == |r| - 1 {
            assert r[i] in r';
            var m :| 0 <= m < |s'| && s'[m] == r[i];
            assert s[m] == r[i];
          } else {
            assert r[i] == r'[i] && r[j] == r'[j];
          }
        }
      } else {
        SubsequenceSorted(r, s', key, le);
      }
    }
  }

  /** Distinct keeps the survivors in their relative order. */
  lemma {:induction false} DistinctSubsequence<T>(s: seq<T>, eq: (T, T) -> bool)
    ensures IsSubsequence(Distinct(s, eq), s)
  {
    if |s| > 0 {
      var seen := Distinct(s[..|s| - 1], eq);
      DistinctSubsequence(s[..|s| - 1], eq);
      if Distinct(s, eq) == seen + [s[|s| - 1]] {
        assert (seen + [s[|s| - 1]])[..|seen|] == seen;
      }
    }
  }

  /** No two elements of `r` are equal under `eq`. */
  ghost predicate NoTwoEqual<T>(r: seq<T>, eq: (T, T) -> bool) {
    forall i, j :: 0 <= i < j < |r| ==> !eq(r[i], r[j])
  }

  /** No two survivors of Distinct are equal under the comparer. */
  lemma {:induction false} DistinctPairwise<T>(s: seq<T>, eq: (T, T) -> bool)
    ensures NoTwoEqual(Distinct(s, eq), eq)
  {
    if |s| > 0 {
      var init := s[..|s| - 1];
      var seen := Distinct(init, eq);
      var x := s[|s| - 1];
      DistinctPairwise(init, eq);
      if exists y :: y in seen && eq(y, x) {
        assert Distinct(s, eq) == seen;
      } else {
        var r := seen + [x];
        assert Distinct(s, eq) == r;
        forall i, j | 0 <= i < j < |r| ensures !eq(r[i], r[j]) {
          assert r[i] == seen[i];
          if j < |seen| {
            assert r[j] == seen[j];
          } else {
            assert r[j] == x;
            assert seen[i] in seen;
          }
        }
      }
    }
  }

  /** Every element of `s` is matched by an element kept by Distinct that
      stands at or before it in `s`. */
  lemma {:induction false} DistinctCovers<T(!new)>(s: seq<T>, eq: (T, T) -> bool, i: nat)
    requires Reflexive(eq) && i < |s|
    ensures exists j :: 0 <= j <= i && s[j] in Distinct(s, eq) && eq(s[j], s[i])
  {
    var init := s[..|s| - 1];
    var seen := Distinct(init, eq);
    var x := s[|s| - 1];
    DistinctGrows(s, eq);
    if i < |s| - 1 {
      DistinctCovers(init, eq, i);
      var j :| 0 <= j <= i && init[j] in seen && eq(init[j], init[i]);
      assert init[j] == s[j] && init[i] == s[i];
      assert s[j] in Distinct(s, eq);
    } else if y :| y in seen && eq(y, x) {
      assert y in init;
      var j :| 0 <= j < |init| && init[j] == y;
      assert s[j] == y && s[j] in Distinct(s, eq);
    } else {
      assert eq(s[i], s[i]);
      assert s[i] in Distinct(s, eq);
    }
  }

  /** Distinct only ever adds to what it kept of a prefix. */
  lemma DistinctGrows<T>(s: seq<T>, eq: (T, T) -> bool)
    requires |s| > 0
    ensures forall y :: y in Distinct(s[..|s| - 1], eq) ==> y in Distinct(s, eq)
  {
  }

  /** An element with no equal element before it survives Distinct. */
  lemma {:induction false} DistinctKeepsFirst<T>(s: seq<T>, eq: (T, T) -> bool, i: nat)
    requires i < |s| && forall j :: 0 <= j < i ==> !eq(s[j], s[i])
    ensures s[i] in Distinct(s, eq)
  {
    var init := s[..|s| - 1];
    var seen := Distinct(init, eq);
    var x := s[|s| - 1];
    if i < |s| - 1 {
      forall j | 0 <= j < i ensures !eq(init[j], init[i]) {
        assert init[j] == s[j] && init[i] == s[i];
      }
      DistinctKeepsFirst(init, eq, i);
    }
  }

  /** Distinct with a seen-list, as LINQ runs it. */
  method RemoveDuplicates<T(==)>(s: seq<T>, eq: (T, T) -> bool) returns (r: seq<T>)
    ensures r == Distinct(s, eq)
  {
    r := [];
    for i := 0 to |s|
      invariant r == Distinct(s[..i], eq)
    {
      var x := s[i];
      var found := false;
      var j := 0;
      while j < |r| && !found
        invariant 0 <= j <= |r|
        invariant found <==> exists m :: 0 <= m < j && eq(r[m], x)
      {
        found := eq(r[j], x);
        j := j + 1;
      }
      assert found <==> exists y :: y in r && eq(y, x);
      if !found {
        r := r + [x];
      }
      assert s[..i + 1][..i] == s[..i];
    }
    assert s[..|s|] == s;
  }

  // =====================================================================
  // GroupBy

  /** Index of the first group whose key the comparer matches with `k`, or
      the number of groups when there is none. */
  function FirstMatch<K, T>(gs: seq<Grouping<K, T>>, k: K, eq: (K, K) -> bool): (i: nat)
    ensures i <= |gs|
    ensures forall m :: 0 <= m < i ==> !eq(gs[m].key, k)
    ensures i < |gs| ==> eq(gs[i].key, k)
  {
    if |gs| == 0 then 0
    else if eq(gs[0].key, k) then 0
    else 1 + FirstMatch(gs[1..], k, eq)
  }

  /** Files `x` under the group whose key matches its own, or opens a new
      group at the end. */
  function AddToGroups<T, K>(gs: seq<Grouping<K, T>>, x: T, key: T -> K, eq: (K, K) -> bool): seq<Grouping<K, T>> {
    var i := FirstMatch(gs, key(x), eq);
    if i < |gs| then gs[i := Grouping(gs[i].key, gs[i].items + [x])]
    else gs + [Grouping(key(x), [x])]
  }

  /** `s.GroupBy(key, comparer)`: groups in order of first appearance, each
      keyed by the key of its first element, elements in their original order. */
  function GroupBy<T, K>(s: seq<T>, key: T -> K, eq: (K, K) -> bool): seq<Grouping<K, T>> {
    if |s| == 0 then []
    else AddToGroups(GroupBy(s[..|s| - 1], key, eq), s[|s| - 1], key, eq)
  }

  /** The elements of `s` whose key the comparer matches with `k`, in order. */
  function Matching<T(==), K>(s: seq<T>, key: T -> K, eq: (K, K) -> bool, k: K): (r: seq<T>)
    ensures forall y :: y in r ==> y in s && eq(k, key(y))
  {
    if |s| == 0 then []
    else Matching(s[..|s| - 1], key, eq, k) + (if eq(k, key(s[|s| - 1])) then [s[|s| - 1]] else [])
  }

  /** Every group is non-empty and keyed by its first element. */
  ghost predicate KeyedByFirst<T, K>(gs: seq<Grouping<K, T>>, key: T -> K) {
    forall i :: 0 <= i < |gs| ==> |gs[i].items| > 0 && gs[i].key == key(gs[i].items[0])
  }

  /** Every group holds exactly the elements of `s` matching its key, in order. */
  ghost predicate ItemsMatch<T, K>(gs: seq<Grouping<K, T>>, s: seq<T>, key: T -> K, eq: (K, K) -> bool) {
    forall i :: 0 <= i < |gs| ==> gs[i].items == Matching(s, key, eq, gs[i].key)
  }

  /** No two group keys match. */
  ghost predicate KeysApart<T, K>(gs: seq<Grouping<K, T>>, eq: (K, K) -> bool) {
    forall i, j :: 0 <= i < j < |gs| ==> !eq(gs[i].key, gs[j].key)
  }

  /** Every element's key matches the key of some group. */
  ghost predicate CoversAll<T, K>(gs: seq<Grouping<K, T>>, s: seq<T>, key: T -> K, eq: (K, K) -> bool) {
    forall y :: y in s ==> exists i :: 0 <= i < |gs| && eq(gs[i].key, key(y))
  }

  /** `gs` partitions `s` by key. */
  ghost predicate IsGrouping<T, K>(gs: seq<Grouping<K, T>>, s: seq<T>, key: T -> K, eq: (K, K) -> bool) {
    KeyedByFirst(gs, key) && ItemsMatch(gs, s, key, eq) && KeysApart(gs, eq) && CoversAll(gs, s, key, eq)
  }

  /** Every element whose key the comparer matches with `k` is in Matching. */
  lemma {:induction false} MatchingHas<T, K>(s: seq<T>, key: T -> K, eq: (K, K) -> bool, k: K, y: T)
    requires y in s && eq(k, key(y))
    ensures y in Matching(s, key, eq, k)
  {
    var init := s[..|s| - 1];
    if y != s[|s| - 1] {
      assert y in init by {
        var p :| 0 <= p < |s| && s[p] == y;
        assert init[p] == y;
      }
      MatchingHas(init, key, eq, k, y);
    }
  }

  lemma MatchingSnoc<T, K>(s: seq<T>, x: T, key: T -> K, eq: (K, K) -> bool, k: K)
    ensures Matching(s + [x], key, eq, k) == Matching(s, key, eq, k) + (if eq(k, key(x)) then [x] else [])
  {
    assert (s + [x])[..|s|] == s;
    assert (s + [x])[|s|] == x;
  }

  /** `x` matches no group other than the first one its key matches. */
  lemma OnlyFirstMatch<T, K(!new), N>(gs: seq<Grouping<K, T>>, x: T, key: T -> K, eq: (K, K) -> bool, norm: K -> N, i: nat)
    requires InducedBy(eq, norm) && KeysApart(gs, eq)
    requires i == FirstMatch(gs, key(x), eq) && i < |gs|
    ensures forall m :: 0 <= m < |gs| && m != i ==> !eq(gs[m].key, key(x))
  {
    forall m | 0 <= m < |gs| && m != i ensures !eq(gs[m].key, key(x)) {
      if m < i {
        assert !eq(gs[m].key, gs[i].key);
      } else {
        assert !eq(gs[i].key, gs[m].key);
      }
    }
  }

  /** Filing `x` under group `i`, the only one whose key matches it, keeps
      every group equal to the elements matching its key. */
  lemma ItemsMatchJoin<T, K>(gs: seq<Grouping<K, T>>, s: seq<T>, x: T, key: T -> K, eq: (K, K) -> bool, i: nat)
    requires ItemsMatch(gs, s, key, eq) && i < |gs| && eq(gs[i].key, key(x))
    requires forall m :: 0 <= m < |gs| && m != i ==> !eq(gs[m].key, key(x))
    ensures ItemsMatch(gs[i := Grouping(gs[i].key, gs[i].items + [x])], s + [x], key, eq)
  {
    var r := gs[i := Grouping(gs[i].key, gs[i].items + [x])];
    forall m | 0 <= m < |r| ensures r[m].items == Matching(s + [x], key, eq, r[m].key) {
      MatchingSnoc(s, x, key, eq, gs[m].key);
      if m != i {
        assert r[m] == gs[m];
      }
    }
  }

  /** Opening a group for `x`, whose key matches no group and no earlier
      element, keeps every group equal to the elements matching its key. */
  lemma ItemsMatchOpen<T, K>(gs: seq<Grouping<K, T>>, s: seq<T>, x: T, key: T -> K, eq: (K, K) -> bool)
    requires ItemsMatch(gs, s, key, eq) && eq(key(x), key(x))
    requires forall m :: 0 <= m < |gs| ==> !eq(gs[m].key, key(x))
    requires Matching(s, key, eq, key(x)) == []
    ensures ItemsMatch(gs + [Grouping(key(x), [x])], s + [x], key, eq)
  {
    var r := gs + [Grouping(key(x), [x])];
    forall m | 0 <= m < |r| ensures r[m].items == Matching(s + [x], key, eq, r[m].key) {
      MatchingSnoc(s, x, key, eq, r[m].key);
      if m < |gs| {
        assert r[m] == gs[m];
      }
    }
  }

  /** Groups that keep their keys and gain one that matches `x` still
      cover every element. */
  lemma CoversAllSnoc<T, K>(gs: seq<Grouping<K, T>>, r: seq<Grouping<K, T>>, s: seq<T>, x: T, key: T -> K, eq: (K, K) -> bool, i: nat)
    requires CoversAll(gs, s, key, eq) && |gs| <= |r|
    requires forall m :: 0 <= m < |gs| ==> r[m].key == gs[m].key
    requires i < |r| && eq(r[i].key, key(x))
    ensures CoversAll(r, s + [x], key, eq)
  {
    forall y | y in s + [x] ensures exists j :: 0 <= j < |r| && eq(r[j].key, key(y)) {
      if y in s {
        var j :| 0 <= j < |gs| && eq(gs[j].key, key(y));
        assert r[j].key == gs[j].key;
      } else {
        assert y == x;
      }
    }
  }

  /** KeysApart looks at the keys alone. */
  lemma KeysApartSameKeys<T, K>(gs: seq<Grouping<K, T>>, r: seq<Grouping<K, T>>, eq: (K, K) -> bool)
    requires KeysApart(gs, eq) && |r| == |gs|
    requires forall m :: 0 <= m < |gs| ==> r[m].key == gs[m].key
    ensures KeysApart(r, eq)
  {
    forall a, b | 0 <= a < b < |r| ensures !eq(r[a].key, r[b].key) {
      assert r[a].key == gs[a].key && r[b].key == gs[b].key;
    }
  }

  lemma KeyedByFirstJoin<T, K>(gs: seq<Grouping<K, T>>, i: nat, x: T, key: T -> K)
    requires KeyedByFirst(gs, key) && i < |gs|
    ensures KeyedByFirst(gs[i := Grouping(gs[i].key, gs[i].items + [x])], key)
  {
    assert (gs[i].items + [x])[0] == gs[i].items[0];
  }

  /** Filing `x` under the existing group whose key matches. */
  lemma JoinGroup<T, K(!new), N>(gs: seq<Grouping<K, T>>, s: seq<T>, x: T, key: T -> K, eq: (K, K) -> bool, norm: K -> N, i: nat)
    requires InducedBy(eq, norm) && IsGrouping(gs, s, key, eq)
    requires i == FirstMatch(gs, key(x), eq) && i < |gs|
    ensures IsGrouping(gs[i := Grouping(gs[i].key, gs[i].items + [x])], s + [x], key, eq)
  {
    var r := gs[i := Grouping(gs[i].key, gs[i].items + [x])];
    OnlyFirstMatch(gs, x, key, eq, norm, i);
    assert forall m :: 0 <= m < |gs| ==> r[m].key == gs[m].key;
    KeyedByFirstJoin(gs, i, x, key);
    ItemsMatchJoin(gs, s, x, key, eq, i);
    KeysApartSameKeys(gs, r, eq);
    CoversAllSnoc(gs, r, s, x, key, eq, i);
  }

  /** The elements whose key matches no element's key match nothing. */
  lemma {:induction false} MatchingNone<T, K>(s: seq<T>, key: T -> K, eq: (K, K) -> bool, k: K)
    requires forall y :: y in s ==> !eq(k, key(y))
    ensures Matching(s, key, eq, k) == []
  {
    if |s| > 0 {
      assert s[|s| - 1] in s;
      assert forall y :: y in s[..|s| - 1] ==> y in s;
      MatchingNone(s[..|s| - 1], key, eq, k);
    }
  }

  /** No earlier element matches the key of an element no group matches. */
  lemma NoEarlierMatch<T, K(!new), N>(gs: seq<Grouping<K, T>>, s: seq<T>, x: T, key: T -> K, eq: (K, K) -> bool, norm: K -> N)
    requires InducedBy(eq, norm) && CoversAll(gs, s, key, eq)
    requires FirstMatch(gs, key(x), eq) == |gs|
    ensures Matching(s, key, eq, key(x)) == []
  {
    forall y | y in s ensures !eq(key(x), key(y)) {
      var j :| 0 <= j < |gs| && eq(gs[j].key, key(y));
      assert norm(gs[j].key) == norm(key(y));
      assert !eq(gs[j].key, key(x));
    }
    MatchingNone(s, key, eq, key(x));
  }

  /** Opening a new group for `x`, whose key matches no existing group. */
  lemma OpenGroup<T, K(!new), N>(gs: seq<Grouping<K, T>>, s: seq<T>, x: T, key: T -> K, eq: (K, K) -> bool, norm: K -> N)
    requires InducedBy(eq, norm) && IsGrouping(gs, s, key, eq)
    requires FirstMatch(gs, key(x), eq) == |gs|
    ensures IsGrouping(gs + [Grouping(key(x), [x])], s + [x], key, eq)
  {
    var r := gs + [Grouping(key(x), [x])];
    NoEarlierMatch(gs, s, x, key, eq, norm);
    assert eq(key(x), key(x)) by {
      assert norm(key(x)) == norm(key(x));
    }
    ItemsMatchOpen(gs, s, x, key, eq);
    KeysApartOpen(gs, Grouping(key(x), [x]), eq);
    KeyedByFirstSnoc(gs, Grouping(key(x), [x]), key);
    CoversAllSnoc(gs, r, s, x, key, eq, |gs|);
  }

  lemma KeyedByFirstSnoc<T, K>(gs: seq<Grouping<K, T>>, g: Grouping<K, T>, key: T -> K)
    requires KeyedByFirst(gs, key) && |g.items| > 0 && g.key == key(g.items[0])
    ensures KeyedByFirst(gs + [g], key)
  {
    assert forall m :: 0 <= m < |gs| ==> (gs + [g])[m] == gs[m];
  }

  /** A new group whose key matches no existing key keeps the keys apart. */
  lemma KeysApartOpen<T, K>(gs: seq<Grouping<K, T>>, g: Grouping<K, T>, eq: (K, K) -> bool)
    requires KeysApart(gs, eq)
    requires forall m :: 0 <= m < |gs| ==> !eq(gs[m].key, g.key)
    ensures KeysApart(gs + [g], eq)
  {
    var r := gs + [g];
    forall a, b | 0 <= a < b < |r| ensures !eq(r[a].key, r[b].key) {
      assert r[a] == gs[a];
      if b < |gs| {
        assert r[b] == gs[b];
      }
    }
  }

  lemma AddToGroupsStep<T, K(!new), N>(gs: seq<Grouping<K, T>>, s: seq<T>, x: T, key: T -> K, eq: (K, K) -> bool, norm: K -> N)
    requires InducedBy(eq, norm) && IsGrouping(gs, s, key, eq)
    ensures IsGrouping(AddToGroups(gs, x, key, eq), s + [x], key, eq)
  {
    var i := FirstMatch(gs, key(x), eq);
    if i < |gs| {
      JoinGroup(gs, s, x, key, eq, norm, i);
    } else {
      OpenGroup(gs, s, x, key, eq, norm);
    }
  }

  /** GroupBy partitions its input by key (see IsGrouping). */
  lemma {:induction false} GroupByIsGrouping<T, K(!new), N>(s: seq<T>, key: T -> K, eq: (K, K) -> bool, norm: K -> N)
    requires InducedBy(eq, norm)
    ensures IsGrouping(GroupBy(s, key, eq), s, key, eq)
  {
    if |s| > 0 {
      var init, x := s[..|s| - 1], s[|s| - 1];
      assert init + [x] == s;
      assert GroupBy(s, key, eq) == AddToGroups(GroupBy(init, key, eq), x, key, eq);
      GroupByIsGrouping(init, key, eq, norm);
      AddToGroupsStep(GroupBy(init, key, eq), init, x, key, eq, norm);
    }
  }

  /** Groups appear in order of first appearance: the groups formed by a
      prefix of the input stay, with their keys, at the front. */
  lemma {:induction false} GroupByPrefix<T, K>(s: seq<T>, n: nat, key: T -> K, eq: (K, K) -> bool)
    requires n <= |s|
    ensures |GroupBy(s[..n], key, eq)| <= |GroupBy(s, key, eq)|
    ensures forall i :: 0 <= i < |GroupBy(s[..n], key, eq)| ==>
              GroupBy(s, key, eq)[i].key == GroupBy(s[..n], key, eq)[i].key
    decreases |s|
  {
    if n < |s| {
      var init := s[..|s| - 1];
      assert init[..n] == s[..n];
      GroupByPrefix(init, n, key, eq);
    } else {
      assert s[..n] == s;
    }
  }

  // =====================================================================
  // SequenceEqual

  /** `xs.SequenceEqual(ys, comparer)`. */
  function SequenceEqual<T>(xs: seq<T>, ys: seq<T>, eq: (T, T) -> bool): bool {
    if |xs| == 0 || |ys| == 0 then |xs| == |ys|
    else eq(xs[0], ys[0]) && SequenceEqual(xs[1..], ys[1..], eq)
  }

  /** SequenceEqual holds exactly for sequences of one length that are
      pairwise equal position by position. */
  lemma {:induction false} SequenceEqualPairwise<T>(xs: seq<T>, ys: seq<T>, eq: (T, T) -> bool)
    ensures SequenceEqual(xs, ys, eq)
        <==> |xs| == |ys| && forall i :: 0 <= i < |xs| ==> eq(xs[i], ys[i])
  {
    if |xs| > 0 && |ys| > 0 {
      SequenceEqualPairwise(xs[1..], ys[1..], eq);
      if |xs| == |ys| && forall i :: 0 <= i < |xs| - 1 ==> eq(xs[1..][i], ys[1..][i]) {
        forall i | 0 < i < |xs| ensures eq(xs[i], ys[i]) {
          assert xs[1..][i - 1] == xs[i] && ys[1..][i - 1] == ys[i];
        }
      }
    }
  }
}
