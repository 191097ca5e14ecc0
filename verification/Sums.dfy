/** Finite sums over the elements of a history that satisfy a condition. */
module Sums {

  /** The sum of `f` over those of the first `n` elements whose position satisfies `keep`. */
  ghost function SumOver<T>(h: seq<T>, f: T -> int, keep: int -> bool, n: nat): int
    requires n <= |h|
  {
    if n == 0 then 0
    else SumOver(h, f, keep, n - 1) + (if keep(n - 1) then f(h[n - 1]) else 0)
  }

  lemma {:induction false} SumSame<T>(h: seq<T>, h': seq<T>, f: T -> int, k: int -> bool, k': int -> bool, n: nat)
    requires n <= |h| && n <= |h'|
    requires forall i :: 0 <= i < n ==> h[i] == h'[i] && k(i) == k'(i)
    ensures SumOver(h, f, k, n) == SumOver(h', f, k', n)
  {
    if n > 0 {
      SumSame(h, h', f, k, k', n - 1);
    }
  }

  /** Terms that are zero may be kept or not. */
  lemma {:induction false} SumKeepsZeros<T>(h: seq<T>, f: T -> int, k: int -> bool, k': int -> bool, n: nat)
    requires n <= |h|
    requires forall i :: 0 <= i < n ==> k(i) == k'(i) || f(h[i]) == 0
    ensures SumOver(h, f, k, n) == SumOver(h, f, k', n)
  {
    if n > 0 {
      SumKeepsZeros(h, f, k, k', n - 1);
    }
  }

  lemma {:induction false} SumNone<T>(h: seq<T>, f: T -> int, k: int -> bool, n: nat)
    requires n <= |h|
    requires forall i :: 0 <= i < n ==> !k(i)
    ensures SumOver(h, f, k, n) == 0
  {
    if n > 0 {
      SumNone(h, f, k, n - 1);
    }
  }

  lemma {:induction false} SumDisjoint<T>(h: seq<T>, f: T -> int, a: int -> bool, b: int -> bool, k: int -> bool, n: nat)
    requires n <= |h|
    requires forall i :: 0 <= i < n ==> !(a(i) && b(i)) && (k(i) <==> a(i) || b(i))
    ensures SumOver(h, f, k, n) == SumOver(h, f, a, n) + SumOver(h, f, b, n)
  {
    if n > 0 {
      SumDisjoint(h, f, a, b, k, n - 1);
    }
  }

  lemma {:induction false} SumLinear<T>(h: seq<T>, f: T -> int, a: T -> int, b: T -> int, c: int, k: int -> bool, n: nat)
    requires n <= |h|
    requires forall t :: t in h ==> f(t) == a(t) + c * b(t)
    ensures SumOver(h, f, k, n) == SumOver(h, a, k, n) + c * SumOver(h, b, k, n)
  {
    if n > 0 {
      SumLinear(h, f, a, b, c, k, n - 1);
      var s, x := SumOver(h, b, k, n - 1), b(h[n - 1]);
      assert c * (s + x) == c * s + c * x;
    }
  }

  /** A sum of non-negative terms is at least each of its terms, and at most the same sum over
      more terms. */
  lemma {:induction false} SumMonotone<T>(h: seq<T>, f: T -> int, k: int -> bool, k': int -> bool, n: nat)
    requires n <= |h|
    requires forall t :: t in h ==> f(t) >= 0
    requires forall i :: 0 <= i < n && k(i) ==> k'(i)
    ensures 0 <= SumOver(h, f, k, n) <= SumOver(h, f, k', n)
  {
    if n > 0 {
      SumMonotone(h, f, k, k', n - 1);
    }
  }

  lemma {:induction false} SumAtLeast<T>(h: seq<T>, f: T -> int, k: int -> bool, n: nat, i: nat)
    requires i < n <= |h| && k(i)
    requires forall t :: t in h ==> f(t) >= 0
    ensures SumOver(h, f, k, n) >= f(h[i])
  {
    if i < n - 1 {
      SumAtLeast(h, f, k, n - 1, i);
    } else {
      SumMonotone(h, f, k, k, n - 1);
    }
  }

  lemma {:induction false} PositiveSum<T>(h: seq<T>, f: T -> int, k: int -> bool, n: nat) returns (i: nat)
    requires n <= |h| && SumOver(h, f, k, n) > 0
    ensures i < n && k(i) && f(h[i]) > 0
  {
    if k(n - 1) && f(h[n - 1]) > 0 {
      i := n - 1;
    } else {
      i := PositiveSum(h, f, k, n - 1);
    }
  }

  lemma {:induction false} SumBounded<T>(h: seq<T>, f: T -> int, k: int -> bool, n: nat, bound: nat)
    requires n <= |h|
    requires forall t :: t in h ==> f(t) <= bound
    ensures SumOver(h, f, k, n) <= bound * SumOver(h, _ => 1, k, n)
  {
    if n > 0 {
      SumBounded(h, f, k, n - 1, bound);
      var c := SumOver(h, (_: T) => 1, k, n - 1);
      assert bound * (c + 1) == bound * c + bound;
    }
  }
}
