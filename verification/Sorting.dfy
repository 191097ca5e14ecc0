/** The stable sort that the comparators of the dashboard and of the evaluation rely on. */
module Sorting {

  ghost predicate Descending<T>(s: seq<T>, key: T -> real) {
    forall i, j :: 0 <= i < j < |s| ==> key(s[i]) >= key(s[j])
  }

  /** Placed before the first element whose key is not larger, so that equal keys keep their
      order. */
  function Insert<T>(x: T, s: seq<T>, key: T -> real): seq<T> {
    if s == [] then [x]
    else if key(x) >= key(s[0]) then [x] + s
    else [s[0]] + Insert(x, s[1..], key)
  }

  /** Descending by `key`. */
  function SortBy<T>(s: seq<T>, key: T -> real): seq<T> {
    if s == [] then [] else Insert(s[0], SortBy(s[1..], key), key)
  }

  lemma {:induction false} InsertElements<T>(x: T, s: seq<T>, key: T -> real)
    ensures multiset(Insert(x, s, key)) == multiset(s) + multiset{x}
    ensures forall y :: y in Insert(x, s, key) <==> y in s || y == x
  {
    if s != [] {
      assert s == [s[0]] + s[1..];
      if key(x) < key(s[0]) {
        InsertElements(x, s[1..], key);
      }
    }
  }

  lemma {:induction false} InsertMember<T>(x: T, s: seq<T>, key: T -> real, y: T)
    ensures y in Insert(x, s, key) <==> y in s || y == x
  {
    InsertElements(x, s, key);
    assert y in multiset(Insert(x, s, key)) <==> y in multiset(s) + multiset{x};
  }

  lemma {:induction false} PrependDescending<T>(x: T, s: seq<T>, key: T -> real)
    requires Descending(s, key) && forall y :: y in s ==> key(y) <= key(x)
    ensures Descending([x] + s, key)
  {
  }

  lemma {:induction false} InsertSorted<T>(x: T, s: seq<T>, key: T -> real)
    requires Descending(s, key)
    ensures Descending(Insert(x, s, key), key)
  {
    if s != [] {
      var rest := s[1..];
      assert s == [s[0]] + rest;
      if key(x) < key(s[0]) {
        assert Descending(rest, key) by {
          assert forall i :: 0 <= i < |rest| ==> rest[i] == s[i + 1];
        }
        InsertSorted(x, rest, key);
        forall y | y in Insert(x, rest, key)
          ensures key(y) <= key(s[0])
        {
          InsertMember(x, rest, key, y);
          if y != x {
            var i :| 0 <= i < |rest| && rest[i] == y;
            assert key(s[0]) >= key(s[i + 1]);
          }
        }
        PrependDescending(s[0], Insert(x, rest, key), key);
      } else {
        PrependDescending(x, s, key);
      }
    }
  }

  lemma {:induction false} SortElements<T>(s: seq<T>, key: T -> real)
    ensures multiset(SortBy(s, key)) == multiset(s)
  {
    if s != [] {
      SortElements(s[1..], key);
      InsertElements(s[0], SortBy(s[1..], key), key);
      assert s == [s[0]] + s[1..];
    }
  }

  lemma {:induction false} SortOrdered<T>(s: seq<T>, key: T -> real)
    ensures Descending(SortBy(s, key), key)
  {
    if s != [] {
      SortOrdered(s[1..], key);
      InsertSorted(s[0], SortBy(s[1..], key), key);
    }
  }

  /** The sort yields the same elements in descending order of key. */
  lemma {:induction false} SortMeaning<T>(s: seq<T>, key: T -> real)
    ensures Descending(SortBy(s, key), key) && multiset(SortBy(s, key)) == multiset(s)
    ensures |SortBy(s, key)| == |s|
    ensures forall x :: x in SortBy(s, key) <==> x in s
  {
    SortOrdered(s, key);
    SortElements(s, key);
    assert |multiset(SortBy(s, key))| == |multiset(s)|;
    forall x
      ensures x in SortBy(s, key) <==> x in s
    {
      SortMember(s, key, x);
    }
  }

  lemma {:induction false} SortMember<T>(s: seq<T>, key: T -> real, x: T)
    ensures x in SortBy(s, key) <==> x in s
  {
    SortElements(s, key);
    assert x in multiset(SortBy(s, key)) <==> x in multiset(s);
  }

  ghost function WithKey<T>(s: seq<T>, key: T -> real, k: real): seq<T> {
    if s == [] then []
    else (if key(s[0]) == k then [s[0]] else []) + WithKey(s[1..], key, k)
  }

  lemma {:induction false} InsertStable<T>(x: T, s: seq<T>, key: T -> real, k: real)
    ensures WithKey(Insert(x, s, key), key, k) == (if key(x) == k then [x] else []) + WithKey(s, key, k)
  {
    if s != [] && key(x) < key(s[0]) {
      var rest, inserted := s[1..], Insert(x, s[1..], key);
      InsertStable(x, rest, key, k);
      assert ([s[0]] + inserted)[1..] == inserted;
      var head := if key(s[0]) == k then [s[0]] else [];
      var mine := if key(x) == k then [x] else [];
      assert head == [] || mine == [];
      assert head + (mine + WithKey(rest, key, k)) == mine + (head + WithKey(rest, key, k));
    } else {
      assert ([x] + s)[1..] == s;
    }
  }

  /** Elements with equal keys keep their order. */
  lemma {:induction false} SortStable<T>(s: seq<T>, key: T -> real, k: real)
    ensures WithKey(SortBy(s, key), key, k) == WithKey(s, key, k)
  {
    if s != [] {
      SortStable(s[1..], key, k);
      InsertStable(s[0], SortBy(s[1..], key), key, k);
    }
  }

  function Filter<T>(s: seq<T>, p: T -> bool): seq<T> {
    if s == [] then [] else (if p(s[0]) then [s[0]] else []) + Filter(s[1..], p)
  }

  function Without<T>(s: seq<T>, i: nat): seq<T>
    requires i < |s|
  {
    s[..i] + s[i + 1..]
  }

  /** Among the elements that satisfy `p`, the i-th is the first of those with the largest key. */
  ghost predicate Leads<T>(s: seq<T>, p: T -> bool, key: T -> real, i: int) {
    && 0 <= i < |s| && p(s[i])
    && forall j :: 0 <= j < |s| && p(s[j]) ==> key(s[j]) < key(s[i]) || (key(s[j]) == key(s[i]) && i <= j)
  }

  lemma {:induction false} FilterIn<T>(s: seq<T>, p: T -> bool, x: T)
    requires x in Filter(s, p)
    ensures x in s && p(x)
  {
    if x !in (if p(s[0]) then [s[0]] else []) {
      FilterIn(s[1..], p, x);
    }
  }

  lemma {:induction false} LeadsTail<T>(s: seq<T>, p: T -> bool, key: T -> real, i: nat)
    requires Leads(s, p, key, i) && i > 0
    ensures Leads(s[1..], p, key, i - 1)
  {
    var t := s[1..];
    forall j | 0 <= j < |t| && p(t[j])
      ensures key(t[j]) < key(t[i - 1]) || (key(t[j]) == key(t[i - 1]) && i - 1 <= j)
    {
      assert t[j] == s[j + 1];
    }
  }

  lemma {:induction false} InsertFirst<T>(x: T, s: seq<T>, key: T -> real)
    requires forall y :: y in s ==> key(y) <= key(x)
    ensures Insert(x, s, key) == [x] + s
  {
    if s != [] {
      assert s[0] in s;
    }
  }

  /** Stability at the top: the sort puts the leader first, and then sorts the rest. */
  lemma {:induction false} SortPutsLeaderFirst<T>(s: seq<T>, p: T -> bool, key: T -> real, i: nat)
    requires Leads(s, p, key, i)
    ensures SortBy(Filter(s, p), key) == [s[i]] + SortBy(Filter(Without(s, i), p), key)
  {
    if i == 0 {
      var rest := Filter(s[1..], p);
      forall y | y in SortBy(rest, key)
        ensures key(y) <= key(s[0])
      {
        SortMember(rest, key, y);
        FilterIn(s[1..], p, y);
        var j :| 0 <= j < |s[1..]| && s[1..][j] == y;
        assert s[j + 1] == y;
      }
      assert Filter(s, p) == [s[0]] + rest && ([s[0]] + rest)[1..] == rest;
      InsertFirst(s[0], SortBy(rest, key), key);
      assert Without(s, 0) == s[1..];
    } else {
      var t := s[1..];
      LeadsTail(s, p, key, i);
      SortPutsLeaderFirst(t, p, key, i - 1);
      PassesLeader(s, p, key, i);
    }
  }

  lemma {:induction false} PassesLeader<T>(s: seq<T>, p: T -> bool, key: T -> real, i: nat)
    requires Leads(s, p, key, i) && i > 0
    requires SortBy(Filter(s[1..], p), key) == [s[i]] + SortBy(Filter(Without(s[1..], i - 1), p), key)
    ensures SortBy(Filter(s, p), key) == [s[i]] + SortBy(Filter(Without(s, i), p), key)
  {
    var rest := Filter(Without(s[1..], i - 1), p);
    assert Without(s, i)[1..] == Without(s[1..], i - 1) && Without(s, i)[0] == s[0];
    if p(s[0]) {
      assert Filter(s, p)[0] == s[0] && Filter(s, p)[1..] == Filter(s[1..], p);
      assert Filter(Without(s, i), p)[0] == s[0] && Filter(Without(s, i), p)[1..] == rest;
      InsertSecond(s[0], s[i], SortBy(rest, key), key);
    } else {
      assert Filter(s, p) == Filter(s[1..], p);
      assert Filter(Without(s, i), p) == rest;
    }
  }

  lemma {:induction false} InsertSecond<T>(x: T, y: T, s: seq<T>, key: T -> real)
    requires key(x) < key(y)
    ensures Insert(x, [y] + s, key) == [y] + Insert(x, s, key)
  {
    assert ([y] + s)[1..] == s;
  }

  lemma {:induction false} FilterCount<T>(s: seq<T>, p: T -> bool, x: T)
    ensures multiset(Filter(s, p))[x] == if p(x) then multiset(s)[x] else 0
  {
    if s != [] {
      FilterCount(s[1..], p, x);
      assert s == [s[0]] + s[1..];
    }
  }

  /** Filtering a permutation, with another filter that agrees on its elements. */
  lemma {:induction false} FilterLength<T(!new)>(a: seq<T>, b: seq<T>, p: T -> bool, q: T -> bool)
    requires forall x :: (if p(x) then multiset(a)[x] else 0) == (if q(x) then multiset(b)[x] else 0)
    ensures |Filter(a, p)| == |Filter(b, q)|
  {
    forall x
      ensures multiset(Filter(a, p))[x] == multiset(Filter(b, q))[x]
    {
      FilterCount(a, p, x);
      FilterCount(b, q, x);
    }
    assert multiset(Filter(a, p)) == multiset(Filter(b, q));
    assert |multiset(Filter(a, p))| == |Filter(a, p)|;
  }

  lemma {:induction false} FilterConcat<T>(a: seq<T>, b: seq<T>, p: T -> bool)
    ensures Filter(a + b, p) == Filter(a, p) + Filter(b, p)
  {
    if a == [] {
      assert a + b == b;
    } else {
      var head := if p(a[0]) then [a[0]] else [];
      var middle, tail := Filter(a[1..], p), Filter(b, p);
      assert (a + b)[0] == a[0] && (a + b)[1..] == a[1..] + b;
      FilterConcat(a[1..], b, p);
      assert (head + middle) + tail == head + (middle + tail);
    }
  }

  lemma {:induction false} FilterAll<T>(s: seq<T>, p: T -> bool)
    requires forall i :: 0 <= i < |s| ==> p(s[i])
    ensures Filter(s, p) == s
  {
    if s != [] {
      FilterAll(s[1..], p);
      assert s == [s[0]] + s[1..];
    }
  }

  // ----- Where the sort puts each element -----

  function Above<T>(key: T -> real, t: real): T -> bool {
    (x: T) => key(x) > t
  }

  function Tied<T>(key: T -> real, t: real): T -> bool {
    (x: T) => key(x) == t
  }

  /** The place of the j-th element: after all larger ones and the equal ones that stood before it. */
  function Rank<T>(s: seq<T>, key: T -> real, j: nat): nat
    requires j < |s|
  {
    |Filter(s, Above(key, key(s[j])))| + |Filter(s[..j], Tied(key, key(s[j])))|
  }

  /** Insertion at the first place that holds no larger element. */
  lemma {:induction false} InsertAt<T>(x: T, s: seq<T>, key: T -> real)
    requires Descending(s, key)
    ensures var q := |Filter(s, Above(key, key(x)))|;
            && q <= |s| && Insert(x, s, key) == s[..q] + [x] + s[q..]
            && forall k :: 0 <= k < |s| ==> (k < q <==> key(s[k]) > key(x))
  {
    if s != [] {
      var rest := s[1..];
      assert Descending(rest, key) by {
        assert forall i :: 0 <= i < |rest| ==> rest[i] == s[i + 1];
      }
      InsertAt(x, rest, key);
      if key(s[0]) > key(x) {
        InsertLater(x, s, key);
      } else {
        NoneAbove(s, key, key(x));
        assert s[..0] + [x] + s[0..] == [x] + s;
      }
    }
  }

  lemma {:induction false} NoneAbove<T>(s: seq<T>, key: T -> real, t: real)
    requires Descending(s, key) && (s != [] ==> key(s[0]) <= t)
    ensures Filter(s, Above(key, t)) == [] && forall k :: 0 <= k < |s| ==> key(s[k]) <= t
  {
    if s != [] {
      var rest := s[1..];
      forall i, j | 0 <= i < j < |rest|
        ensures key(rest[i]) >= key(rest[j])
      {
        assert key(s[i + 1]) >= key(s[j + 1]);
      }
      assert rest != [] ==> key(s[0]) >= key(s[1]);
      NoneAbove(rest, key, t);
      assert forall k :: 0 < k < |s| ==> s[k] == rest[k - 1];
    }
  }

  lemma {:induction false} HeadBack<T>(s: seq<T>, q: nat, x: T)
    requires q < |s|
    ensures [s[0]] + (s[1..][..q] + [x] + s[1..][q..]) == s[..q + 1] + [x] + s[q + 1..]
  {
    assert s[..q + 1] == [s[0]] + s[1..][..q] && s[q + 1..] == s[1..][q..];
  }

  lemma {:induction false} InsertLater<T>(x: T, s: seq<T>, key: T -> real)
    requires s != [] && key(s[0]) > key(x)
    requires var q := |Filter(s[1..], Above(key, key(x)))|;
             && q <= |s| - 1 && Insert(x, s[1..], key) == s[1..][..q] + [x] + s[1..][q..]
             && forall k :: 0 <= k < |s| - 1 ==> (k < q <==> key(s[1..][k]) > key(x))
    ensures var q := |Filter(s, Above(key, key(x)))|;
            && q <= |s| && Insert(x, s, key) == s[..q] + [x] + s[q..]
            && forall k :: 0 <= k < |s| ==> (k < q <==> key(s[k]) > key(x))
  {
    var q := |Filter(s[1..], Above(key, key(x)))|;
    assert |Filter(s, Above(key, key(x)))| == q + 1;
    HeadBack(s, q, x);
    forall k | 0 <= k < |s|
      ensures k < q + 1 <==> key(s[k]) > key(x)
    {
      if k > 0 {
        assert s[1..][k - 1] == s[k];
      }
    }
  }

  lemma {:induction false} SameAbove<T(!new)>(s: seq<T>, key: T -> real, t: real)
    ensures |Filter(SortBy(s, key), Above(key, t))| == |Filter(s, Above(key, t))|
  {
    SortElements(s, key);
    FilterLength(SortBy(s, key), s, Above(key, t), Above(key, t));
  }

  lemma {:induction false} RankOfFirst<T>(s: seq<T>, key: T -> real)
    requires s != []
    ensures Rank(s, key, 0) == |Filter(s[1..], Above(key, key(s[0])))|
  {
  }

  lemma {:induction false} RankOfLater<T>(s: seq<T>, key: T -> real, j: nat)
    requires 0 < j < |s|
    ensures Rank(s, key, j) == Rank(s[1..], key, j - 1) + (if key(s[0]) >= key(s[j]) then 1 else 0)
  {
    assert s[..j][1..] == s[1..][..j - 1];
  }

  lemma {:induction false} Around<T>(s: seq<T>, q: nat, x: T, r: nat)
    requires q <= |s|
    ensures (s[..q] + [x] + s[q..])[q] == x
    ensures r < |s| ==> (s[..q] + [x] + s[q..])[if r >= q then r + 1 else r] == s[r]
  {
  }

  /** The sort puts the j-th element at its rank. */
  lemma {:induction false} RankSort<T(!new)>(s: seq<T>, key: T -> real, j: nat)
    requires j < |s|
    ensures Rank(s, key, j) < |SortBy(s, key)| && SortBy(s, key)[Rank(s, key, j)] == s[j]
  {
    hide Rank, Filter, Insert;
    var rest := s[1..];
    var sorted := SortBy(rest, key);
    var q := |Filter(sorted, Above(key, key(s[0])))|;
    SortMeaning(rest, key);
    InsertAt(s[0], sorted, key);
    SameAbove(rest, key, key(s[0]));
    if j == 0 {
      RankOfFirst(s, key);
      Around(sorted, q, s[0], 0);
    } else {
      RankSort(rest, key, j - 1);
      RankOfLater(s, key, j);
      Around(sorted, q, s[0], Rank(rest, key, j - 1));
    }
  }

  /** Every place is the rank of some element. */
  lemma {:induction false} RankOnto<T(!new)>(s: seq<T>, key: T -> real, a: nat) returns (j: nat)
    requires a < |s|
    ensures j < |s| && Rank(s, key, j) == a
  {
    hide Rank, Filter, Insert;
    var rest := s[1..];
    var sorted, q := SortBy(rest, key), |Filter(rest, Above(key, key(s[0])))|;
    RankOfFirst(s, key);
    if a == q {
      j := 0;
    } else {
      SortMeaning(rest, key);
      InsertAt(s[0], sorted, key);
      SameAbove(rest, key, key(s[0]));
      var b := if a < q then a else a - 1;
      var i := RankOnto(rest, key, b);
      RankSort(rest, key, i);
      j := i + 1;
      RankOfLater(s, key, j);
    }
  }

  lemma {:induction false} RankShifts<T(!new)>(s: seq<T>, key: T -> real, j: nat)
    requires 0 < j < |s|
    ensures var q, r := Rank(s, key, 0), Rank(s[1..], key, j - 1);
            Rank(s, key, j) == if r >= q then r + 1 else r
  {
    hide Rank, Filter, Insert;
    var rest := s[1..];
    SortMeaning(rest, key);
    InsertAt(s[0], SortBy(rest, key), key);
    SameAbove(rest, key, key(s[0]));
    RankOfFirst(s, key);
    RankSort(rest, key, j - 1);
    RankOfLater(s, key, j);
  }

  /** No two elements share a place. */
  lemma {:induction false} RankInjective<T(!new)>(s: seq<T>, key: T -> real, i: nat, j: nat)
    requires i < j < |s|
    ensures Rank(s, key, i) != Rank(s, key, j)
  {
    hide Rank;
    RankShifts(s, key, j);
    if i > 0 {
      RankShifts(s, key, i);
      RankInjective(s[1..], key, i - 1, j - 1);
    }
  }
}
