/**
 * The orderings the table assembler relies on: np.lexsort on (temperature, pressure), a
 * stable sort by pressure first and temperature second, and np.unique, the strictly
 * increasing list of the distinct values.
 */
module Ordering {

  /** The lexicographic order on (pressure, temperature) keys. */
  predicate LexLe(a: (real, real), b: (real, real)) {
    a.0 < b.0 || (a.0 == b.0 && a.1 <= b.1)
  }

  predicate SortedBy<T>(s: seq<T>, key: T -> (real, real)) {
    forall i, j :: 0 <= i < j < |s| ==> LexLe(key(s[i]), key(s[j]))
  }

  /** The elements of s whose key is k, in their order in s. */
  function WithKey<T>(s: seq<T>, key: T -> (real, real), k: (real, real)): (r: seq<T>)
    ensures |r| <= |s|
  {
    if s == [] then []
    else if key(s[0]) == k then [s[0]] + WithKey(s[1..], key, k)
    else WithKey(s[1..], key, k)
  }

  /** Put x in front of the first element of t whose key is not below x's. */
  function Insert<T>(x: T, t: seq<T>, key: T -> (real, real)): (r: seq<T>)
    ensures |r| == |t| + 1
  {
    if t == [] || LexLe(key(x), key(t[0])) then [x] + t
    else [t[0]] + Insert(x, t[1..], key)
  }

  /**
   * The records in the order np.lexsort((temperatures, pressures)) gives: by pressure, then by
   * temperature, with records of equal keys in their original order.
   */
  function SortByKey<T>(s: seq<T>, key: T -> (real, real)): (r: seq<T>)
    ensures |r| == |s|
  {
    if s == [] then [] else Insert(s[0], SortByKey(s[1..], key), key)
  }

  lemma {:induction false} InsertSorted<T>(x: T, t: seq<T>, key: T -> (real, real))
    requires SortedBy(t, key)
    ensures SortedBy(Insert(x, t, key), key)
    decreases |t|
  {
    if t != [] && !LexLe(key(x), key(t[0])) {
      InsertSorted(x, t[1..], key);
      InsertAbove(x, t[1..], key, key(t[0]));
      ConsSorted(t[0], Insert(x, t[1..], key), key);
    }
  }

  /** Inserting an element no lower than lo into a list no lower than lo gives a list no lower than lo. */
  lemma InsertAbove<T>(x: T, t: seq<T>, key: T -> (real, real), lo: (real, real))
    requires LexLe(lo, key(x)) && forall k :: 0 <= k < |t| ==> LexLe(lo, key(t[k]))
    ensures forall k :: 0 <= k < |Insert(x, t, key)| ==> LexLe(lo, key(Insert(x, t, key)[k]))
  {
    var r := Insert(x, t, key);
    InsertMembers(x, t, key);
    forall k | 0 <= k < |r| ensures LexLe(lo, key(r[k])) {
      assert r[k] in multiset(t) + multiset{x};
    }
  }

  /** A sorted list stays sorted behind an element no higher than any of its elements. */
  lemma ConsSorted<T>(a: T, s: seq<T>, key: T -> (real, real))
    requires SortedBy(s, key) && forall k :: 0 <= k < |s| ==> LexLe(key(a), key(s[k]))
    ensures SortedBy([a] + s, key)
  {
    var r := [a] + s;
    forall i, j | 0 <= i < j < |r| ensures LexLe(key(r[i]), key(r[j])) {
      assert r[j] == s[j - 1];
      if i > 0 {
        assert r[i] == s[i - 1];
      }
    }
  }

  lemma {:induction false} InsertMembers<T>(x: T, t: seq<T>, key: T -> (real, real))
    ensures multiset(Insert(x, t, key)) == multiset(t) + multiset{x}
    decreases |t|
  {
    if t != [] && !LexLe(key(x), key(t[0])) {
      InsertMembers(x, t[1..], key);
      assert t == [t[0]] + t[1..];
    }
  }

  /** Inserting before every equal key keeps the equal-key elements in their order, x first. */
  lemma {:induction false} InsertWithKey<T>(x: T, t: seq<T>, key: T -> (real, real), k: (real, real))
    requires SortedBy(t, key)
    ensures WithKey(Insert(x, t, key), key, k)
         == if key(x) == k then [x] + WithKey(t, key, k) else WithKey(t, key, k)
    decreases |t|
  {
    var r := Insert(x, t, key);
    if t == [] || LexLe(key(x), key(t[0])) {
      assert r[1..] == t;
    } else {
      assert r[1..] == Insert(x, t[1..], key);
      InsertWithKey(x, t[1..], key, k);
      assert key(t[0]) != key(x);
      if key(t[0]) == k {
        assert key(x) != k;
      }
    }
  }

  /** No element has key k: WithKey finds nothing. */
  lemma {:induction false} WithKeyAbsent<T>(s: seq<T>, key: T -> (real, real), k: (real, real))
    requires forall a :: 0 <= a < |s| ==> key(s[a]) != k
    ensures WithKey(s, key, k) == []
    decreases |s|
  {
    if s != [] {
      assert key(s[0]) != k;
      WithKeyAbsent(s[1..], key, k);
    }
  }

  /** Only s[m] has key k: WithKey finds exactly s[m]. */
  lemma {:induction false} WithKeyOnly<T>(s: seq<T>, key: T -> (real, real), k: (real, real), m: nat)
    requires m < |s| && key(s[m]) == k
    requires forall a :: 0 <= a < |s| && key(s[a]) == k ==> a == m
    ensures WithKey(s, key, k) == [s[m]]
    decreases m
  {
    if m == 0 {
      WithKeyAbsent(s[1..], key, k);
    } else {
      assert key(s[0]) != k;
      assert s[1..][m - 1] == s[m];
      WithKeyOnly(s[1..], key, k, m - 1);
    }
  }

  /** s[b] has key k: WithKey finds something. */
  lemma {:induction false} WithKeyFinds<T>(s: seq<T>, key: T -> (real, real), k: (real, real), b: nat)
    requires b < |s| && key(s[b]) == k
    ensures WithKey(s, key, k) != []
    decreases b
  {
    if b > 0 && key(s[0]) != k {
      assert s[1..][b - 1] == s[b];
      WithKeyFinds(s[1..], key, k, b - 1);
    }
  }

  /** Two elements with key k: WithKey finds at least two. */
  lemma {:induction false} WithKeyTwice<T>(s: seq<T>, key: T -> (real, real), k: (real, real), a: nat, b: nat)
    requires a < b < |s| && key(s[a]) == k && key(s[b]) == k
    ensures |WithKey(s, key, k)| >= 2
    decreases a
  {
    assert s[1..][b - 1] == s[b];
    if a == 0 {
      WithKeyFinds(s[1..], key, k, b - 1);
    } else {
      assert s[1..][a - 1] == s[a];
      WithKeyTwice(s[1..], key, k, a - 1, b - 1);
    }
  }

  /** Whatever WithKey finds has key k and comes from s. */
  lemma {:induction false} WithKeyFrom<T>(s: seq<T>, key: T -> (real, real), k: (real, real)) returns (a: nat)
    requires WithKey(s, key, k) != []
    ensures a < |s| && key(s[a]) == k
    decreases |s|
  {
    if key(s[0]) == k {
      a := 0;
    } else {
      a := WithKeyFrom(s[1..], key, k);
      assert s[1..][a] == s[a + 1];
      a := a + 1;
    }
  }

  /** The sort orders the records by pressure, then temperature. */
  lemma {:induction false} SortByKeySorted<T>(s: seq<T>, key: T -> (real, real))
    ensures SortedBy(SortByKey(s, key), key)
    decreases |s|
  {
    if s != [] {
      SortByKeySorted(s[1..], key);
      InsertSorted(s[0], SortByKey(s[1..], key), key);
    }
  }

  /** The sort is a permutation: every record is kept, as often as it occurs. */
  lemma {:induction false} SortByKeyPermutes<T>(s: seq<T>, key: T -> (real, real))
    ensures multiset(SortByKey(s, key)) == multiset(s)
    decreases |s|
  {
    if s != [] {
      SortByKeyPermutes(s[1..], key);
      InsertMembers(s[0], SortByKey(s[1..], key), key);
      assert s == [s[0]] + s[1..];
    }
  }

  /** The sort is stable: records of equal key keep their original order. */
  lemma {:induction false} SortByKeyStable<T>(s: seq<T>, key: T -> (real, real), k: (real, real))
    ensures WithKey(SortByKey(s, key), key, k) == WithKey(s, key, k)
    decreases |s|
  {
    if s != [] {
      SortByKeyStable(s[1..], key, k);
      SortByKeySorted(s[1..], key);
      InsertWithKey(s[0], SortByKey(s[1..], key), key, k);
    }
  }

  predicate StrictlyIncreasing(xs: seq<real>) {
    forall i, j :: 0 <= i < j < |xs| ==> xs[i] < xs[j]
  }

  /** A strictly increasing list holds each value at one index only. */
  lemma IncreasingAtOneIndex(xs: seq<real>, a: nat, b: nat)
    requires StrictlyIncreasing(xs) && a < |xs| && b < |xs| && xs[a] == xs[b]
    ensures a == b
  {
  }

  /** Add x to a strictly increasing list unless it is there already. */
  function InsertDistinct(x: real, t: seq<real>): (r: seq<real>)
    requires StrictlyIncreasing(t)
    ensures StrictlyIncreasing(r)
    ensures forall y :: y in r <==> y == x || y in t
    ensures |r| <= |t| + 1
    decreases |t|
  {
    if t == [] then [x]
    else if x < t[0] then [x] + t
    else if x == t[0] then t
    else
      var rest := InsertDistinct(x, t[1..]);
      var r := [t[0]] + rest;
      assert forall y :: y in t <==> y == t[0] || y in t[1..];
      assert forall j :: 0 <= j < |rest| ==> t[0] < rest[j] by {
        forall j | 0 <= j < |rest| ensures t[0] < rest[j] {
          assert rest[j] in rest;
          if rest[j] != x {
            var i :| 0 <= i < |t[1..]| && t[1..][i] == rest[j];
            assert t[i + 1] == rest[j];
          }
        }
      }
      r
  }

  /** np.unique: the distinct values of xs in increasing order. */
  function Unique(xs: seq<real>): (u: seq<real>)
    ensures StrictlyIncreasing(u)
    ensures forall y :: y in u <==> y in xs
    ensures |u| <= |xs|
  {
    if xs == [] then []
    else
      assert forall y :: y in xs <==> y == xs[0] || y in xs[1..];
      InsertDistinct(xs[0], Unique(xs[1..]))
  }

  /** A strictly increasing list is determined by its set of values. */
  lemma {:induction false} IncreasingListsWithSameValues(a: seq<real>, b: seq<real>)
    requires StrictlyIncreasing(a) && StrictlyIncreasing(b)
    requires forall y :: y in a <==> y in b
    ensures a == b
    decreases |a|
  {
    if a != [] { assert a[0] in a; }
    if b != [] { assert b[0] in b; }
    if a != [] && b != [] {
      SameSmallest(a, b);
      forall y ensures y in a[1..] <==> y in b[1..] {
        if y in a[1..] {
          InBothTails(a, b, y);
        }
        if y in b[1..] {
          InBothTails(b, a, y);
        }
      }
      IncreasingListsWithSameValues(a[1..], b[1..]);
      assert a == [a[0]] + a[1..] && b == [b[0]] + b[1..];
    }
  }

  /** Two strictly increasing lists with the same values start with the same, smallest, value. */
  lemma SameSmallest(a: seq<real>, b: seq<real>)
    requires StrictlyIncreasing(a) && StrictlyIncreasing(b) && a != [] && b != []
    requires forall y :: y in a <==> y in b
    ensures a[0] == b[0]
  {
    assert a[0] in a && b[0] in b;
    var j :| 0 <= j < |b| && b[j] == a[0];
    var i :| 0 <= i < |a| && a[i] == b[0];
    assert b[0] <= b[j] && a[0] <= a[i];
  }

  /** A value past the common first element of one list is past it in the other as well. */
  lemma InBothTails(a: seq<real>, b: seq<real>, y: real)
    requires StrictlyIncreasing(a) && StrictlyIncreasing(b) && a != [] && b != [] && a[0] == b[0]
    requires forall y :: y in a <==> y in b
    requires y in a[1..]
    ensures y in b[1..]
  {
    var i :| 0 <= i < |a[1..]| && a[1..][i] == y;
    assert a[i + 1] == y && y != a[0];
    assert y in b;
    var j :| 0 <= j < |b| && b[j] == y;
    assert b[1..][j - 1] == y;
  }

  /** Keys in strictly increasing lexicographic order: sorted, and no key twice. */
  predicate LexIncreasing(ks: seq<(real, real)>) {
    forall i, j :: 0 <= i < j < |ks| ==> LexLe(ks[i], ks[j]) && ks[i] != ks[j]
  }

  /** A lexicographically increasing list of keys is determined by its set of keys. */
  lemma {:induction false} IncreasingKeysWithSameMembers(a: seq<(real, real)>, b: seq<(real, real)>)
    requires LexIncreasing(a) && LexIncreasing(b)
    requires forall y :: y in a <==> y in b
    ensures a == b
    decreases |a|
  {
    if a != [] { assert a[0] in a; }
    if b != [] { assert b[0] in b; }
    if a != [] && b != [] {
      assert a[0] == b[0];
      forall y ensures y in a[1..] <==> y in b[1..] {
        if y in a[1..] {
          var i :| 1 <= i < |a| && a[i] == y;
          assert y in b && y != b[0];
          var j :| 0 <= j < |b| && b[j] == y;
          assert b[1..][j - 1] == y;
        }
        if y in b[1..] {
          var j :| 1 <= j < |b| && b[j] == y;
          assert y in a && y != a[0];
          var i :| 0 <= i < |a| && a[i] == y;
          assert a[1..][i - 1] == y;
        }
      }
      IncreasingKeysWithSameMembers(a[1..], b[1..]);
      assert a == [a[0]] + a[1..] && b == [b[0]] + b[1..];
    }
  }

  /** Unique(xs) is the only strictly increasing list holding exactly the values of xs. */
  lemma UniqueCharacterised(xs: seq<real>, u: seq<real>)
    requires StrictlyIncreasing(u) && forall y :: y in u <==> y in xs
    ensures u == Unique(xs)
  {
    IncreasingListsWithSameValues(u, Unique(xs));
  }
}
