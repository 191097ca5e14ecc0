/** The cross-validation splitter with an embargo after each validation fold. */
module KFold {

  import opened Reals
  import opened Rounding
  import opened Wrappers

  datatype Fold = Fold(train: seq<nat>, val: seq<nat>)

  datatype SplitError = TooFewSplits | EmbargoOutOfRange

  function Min(a: nat, b: nat): nat {
    if a < b then a else b
  }

  function Range(lo: nat, hi: nat): (r: seq<nat>)
    ensures |r| == if lo <= hi then hi - lo else 0
    ensures forall i :: 0 <= i < |r| ==> r[i] == lo + i
  {
    if lo >= hi then [] else seq(hi - lo, i requires 0 <= i => lo + i)
  }

  // ----- The bounds of each fold -----

  function Start(n: nat, splits: nat, k: nat): nat
    requires splits >= 2
  {
    k * (n / splits)
  }

  function Stop(n: nat, splits: nat, k: nat): nat
    requires splits >= 2
  {
    if k == splits - 1 then n else (k + 1) * (n / splits)
  }

  /** Where training resumes after the fold: slices are clipped to the data. */
  function Resume(n: nat, splits: nat, embargo: nat, k: nat): nat
    requires splits >= 2
  {
    Min(n, Stop(n, splits, k) + embargo)
  }

  /** Everything but the fold and the embargo run after it. */
  function FoldAt(n: nat, splits: nat, embargo: nat, k: nat): Fold
    requires splits >= 2
  {
    Fold(Range(0, Start(n, splits, k)) + Range(Resume(n, splits, embargo, k), n),
         Range(Start(n, splits, k), Stop(n, splits, k)))
  }

  lemma {:induction false} MulMonotone(a: nat, b: nat, c: nat)
    requires a <= b
    ensures a * c <= b * c
  {
  }

  lemma {:induction false} Bounds(n: nat, splits: nat, k: nat)
    requires splits >= 2 && k < splits
    ensures Start(n, splits, k) <= Stop(n, splits, k) <= n
    ensures k + 1 < splits ==> Start(n, splits, k + 1) == Stop(n, splits, k)
    ensures Start(n, splits, k) + n / splits <= Stop(n, splits, k)
    ensures k + 1 < splits ==> Start(n, splits, k) + n / splits == Stop(n, splits, k)
  {
    var f := n / splits;
    assert splits * f <= n;
    assert (k + 1) * f == k * f + f;
    MulMonotone(k + 1, splits, f);
  }

  // ----- The loop -----

  /** `mask[lo:hi] = False`. */
  method ClearSlice(mask: array<bool>, lo: nat, hi: nat)
    modifies mask
    ensures forall i :: 0 <= i < mask.Length ==> mask[i] == (old(mask[i]) && !(lo <= i < hi))
  {
    for i := 0 to mask.Length
      invariant forall j :: 0 <= j < i ==> mask[j] == (old(mask[j]) && !(lo <= j < hi))
      invariant forall j :: i <= j < mask.Length ==> mask[j] == old(mask[j])
    {
      if lo <= i < hi {
        mask[i] := false;
      }
    }
  }

  /** `indices[mask]`, for a mask that is true outside one run. */
  method SelectTrue(mask: array<bool>, ghost lo: nat, ghost hi: nat) returns (s: seq<nat>)
    requires lo <= hi <= mask.Length
    requires forall i :: 0 <= i < mask.Length ==> mask[i] == !(lo <= i < hi)
    ensures s == Range(0, lo) + Range(hi, mask.Length)
  {
    s := [];
    for i := 0 to mask.Length
      invariant s == Range(0, Min(i, lo)) + Range(hi, i)
    {
      if mask[i] {
        s := s + [i];
      }
    }
  }

  /** Binary64 rounding, of which only this is used: between 0 and n it stays there, as it does for
      every n that binary64 represents. */
  ghost predicate RoundsInside(rnd: real -> real, n: nat) {
    forall x :: 0.0 <= x <= n as real ==> 0.0 <= rnd(x) <= n as real
  }

  lemma {:induction false} ScaleDown(p: real, n: real, x: real)
    requires 0.0 <= p < 1.0 && n >= 0.0 && x == p * n
    ensures 0.0 <= x <= n
  {
    var y := (1.0 - p) * n;
    NonNegative(p, n, x);
    NonNegative(1.0 - p, n, y);
    assert x + y == n;
  }

  /** The product is rounded to binary64 before Python rounds it to an integer. */
  function EmbargoOf(n: nat, pct: real, rnd: real -> real): (embargo: nat)
    requires 0.0 <= pct < 1.0 && RoundsInside(rnd, n)
    ensures embargo <= n
  {
    ScaleDown(pct, n as real, pct * n as real);
    RoundInside(rnd(pct * n as real), n);
    RoundHalfEven(rnd(pct * n as real))
  }

  function FirstFolds(n: nat, splits: nat, embargo: nat, m: nat): (fs: seq<Fold>)
    requires splits >= 2
    ensures |fs| == m && forall k :: 0 <= k < m ==> fs[k] == FoldAt(n, splits, embargo, k)
  {
    if m == 0 then [] else FirstFolds(n, splits, embargo, m - 1) + [FoldAt(n, splits, embargo, m - 1)]
  }

  // ----- What a split is, without the functions that compute it -----

  predicate Increasing(s: seq<nat>) {
    forall i, j :: 0 <= i < j < |s| ==> s[i] < s[j]
  }

  /** The embargo is a whole number nearest to the rounded product, the even one of two. */
  ghost predicate IsEmbargo(n: nat, pct: real, rnd: real -> real, e: nat) {
    var d := e as real - rnd(pct * n as real);
    -0.5 <= d <= 0.5 && (d == 0.5 || d == -0.5 ==> e % 2 == 0)
  }

  /** Fold k: the k-th of `splits` runs of n / splits samples, the last one reaching to the end,
      and for training every sample but the run and the `e` samples after it. */
  ghost predicate IsFold(n: nat, splits: nat, e: nat, k: nat, f: Fold)
    requires splits >= 2
  {
    var start := k * (n / splits);
    var stop := if k == splits - 1 then n else (k + 1) * (n / splits);
    && Increasing(f.val) && (forall i :: i in f.val <==> start <= i < stop)
    && Increasing(f.train) && (forall i :: i in f.train <==> 0 <= i < n && !(start <= i < stop + e))
  }

  ghost predicate AreFolds(n: nat, splits: nat, e: nat, folds: seq<Fold>)
    requires splits >= 2
  {
    |folds| == splits && forall k :: 0 <= k < splits ==> IsFold(n, splits, e, k, folds[k])
  }

  lemma {:induction false} RangeMembers(lo: nat, hi: nat)
    ensures Increasing(Range(lo, hi)) && forall i :: i in Range(lo, hi) <==> lo <= i < hi
  {
    forall i | lo <= i < hi
      ensures i in Range(lo, hi)
    {
      assert Range(lo, hi)[i - lo] == i;
    }
  }

  lemma {:induction false} FoldMeaning(n: nat, splits: nat, e: nat, k: nat)
    requires splits >= 2 && k < splits
    ensures IsFold(n, splits, e, k, FoldAt(n, splits, e, k))
  {
    hide Range;
    Bounds(n, splits, k);
    var start, stop, resume := Start(n, splits, k), Stop(n, splits, k), Resume(n, splits, e, k);
    RangeMembers(start, stop);
    RangeMembers(0, start);
    RangeMembers(resume, n);
  }

  lemma {:induction false} SplitMeaning(n: nat, splits: nat, pct: real, rnd: real -> real)
    requires splits >= 2 && 0.0 <= pct < 1.0 && RoundsInside(rnd, n)
    ensures var e := EmbargoOf(n, pct, rnd);
            IsEmbargo(n, pct, rnd, e) && AreFolds(n, splits, e, FirstFolds(n, splits, e, splits))
  {
    hide IsFold, FoldAt, RoundHalfEven;
    var e := EmbargoOf(n, pct, rnd);
    NearestEven(rnd(pct * n as real));
    forall k | 0 <= k < splits
      ensures IsFold(n, splits, e, k, FirstFolds(n, splits, e, splits)[k])
    {
      FoldMeaning(n, splits, e, k);
    }
  }

  /** `embargoPct` is the exact value of the double that is passed. */
  method PurgedKFold(n: nat, splits: int, embargoPct: real, rnd: real -> real) returns (r: Result<seq<Fold>, SplitError>)
    requires RoundsInside(rnd, n)
    ensures r == if splits < 2 then Err(TooFewSplits)
                 else if !(0.0 <= embargoPct < 1.0) then Err(EmbargoOutOfRange)
                 else Ok(FirstFolds(n, splits, EmbargoOf(n, embargoPct, rnd), splits))
    ensures r.Ok? ==> exists e: nat :: IsEmbargo(n, embargoPct, rnd, e) && AreFolds(n, splits, e, r.value)
  {
    hide AreFolds, IsEmbargo, EmbargoOf;
    if splits < 2 {
      return Err(TooFewSplits);
    }
    if !(0.0 <= embargoPct < 1.0) {
      return Err(EmbargoOutOfRange);
    }
    var foldSize := n / splits;
    var embargo := EmbargoOf(n, embargoPct, rnd);
    var folds := [];
    for k := 0 to splits
      invariant folds == FirstFolds(n, splits, embargo, k)
    {
      Bounds(n, splits, k);
      var valStart := k * foldSize;
      var valStop := if k == splits - 1 then n else (k + 1) * foldSize;
      var mask := new bool[n](_ => true);
      ClearSlice(mask, valStart, valStop);
      ClearSlice(mask, valStop, valStop + embargo);
      var train := SelectTrue(mask, valStart, Resume(n, splits, embargo, k));
      folds := folds + [Fold(train, Range(valStart, valStop))];
    }
    SplitMeaning(n, splits, embargoPct, rnd);
    r := Ok(folds);
  }

  // ----- Partition, separation, counting -----

  function Validated(n: nat, splits: nat, embargo: nat, m: nat): seq<nat>
    requires splits >= 2
  {
    if m == 0 then [] else Validated(n, splits, embargo, m - 1) + FoldAt(n, splits, embargo, m - 1).val
  }

  lemma {:induction false} ValidatedPrefix(n: nat, splits: nat, embargo: nat, m: nat)
    requires splits >= 2 && m <= splits
    ensures Validated(n, splits, embargo, m) == Range(0, if m == splits then n else Start(n, splits, m))
  {
    if m > 0 {
      ValidatedPrefix(n, splits, embargo, m - 1);
      Bounds(n, splits, m - 1);
    }
  }

  /** The validation folds, laid end to end, are the whole data in order: they are contiguous
      and disjoint and leave nothing out. */
  lemma {:induction false} FoldsPartition(n: nat, splits: nat, embargo: nat)
    requires splits >= 2
    ensures Validated(n, splits, embargo, splits) == Range(0, n)
  {
    ValidatedPrefix(n, splits, embargo, splits);
  }

  /** Every sample is validated in exactly one fold. */
  lemma {:induction false} OneHome(n: nat, splits: nat, embargo: nat, i: nat) returns (home: nat)
    requires splits >= 2 && i < n
    ensures home < splits && i in FoldAt(n, splits, embargo, home).val
    ensures forall k :: 0 <= k < splits && k != home ==> i !in FoldAt(n, splits, embargo, k).val
  {
    home := 0;
    while i >= Stop(n, splits, home)
      invariant home < splits && Start(n, splits, home) <= i
      decreases splits - home
    {
      Bounds(n, splits, home);
      home := home + 1;
    }
    assert Range(Start(n, splits, home), Stop(n, splits, home))[i - Start(n, splits, home)] == i;
    forall k | 0 <= k < splits && k != home
      ensures i !in FoldAt(n, splits, embargo, k).val
    {
      if k < home {
        StartsApart(n, splits, k, home);
      } else {
        StartsApart(n, splits, home, k);
      }
    }
  }

  predicate TrainsOn(n: nat, splits: nat, embargo: nat, k: nat, i: nat)
    requires splits >= 2
  {
    i in FoldAt(n, splits, embargo, k).train
  }

  /** A training set is exactly the complement of its fold and the embargo run after it. */
  lemma {:induction false} TrainMembership(n: nat, splits: nat, embargo: nat, k: nat, i: nat)
    requires splits >= 2 && k < splits
    ensures TrainsOn(n, splits, embargo, k, i) <==> i < n && !(Start(n, splits, k) <= i < Stop(n, splits, k) + embargo)
  {
    Bounds(n, splits, k);
    var a, b := Range(0, Start(n, splits, k)), Range(Resume(n, splits, embargo, k), n);
    if i < Start(n, splits, k) {
      assert a[i] == i;
    }
    if Resume(n, splits, embargo, k) <= i < n {
      assert b[i - Resume(n, splits, embargo, k)] == i;
    }
  }

  /** No training sample lies within `embargo` positions at or after a validation sample. */
  lemma {:induction false} Separation(n: nat, splits: nat, embargo: nat, k: nat, t: nat, v: nat)
    requires splits >= 2 && k < splits
    requires t in FoldAt(n, splits, embargo, k).train && v in FoldAt(n, splits, embargo, k).val
    ensures t < v || t > v + embargo
  {
    TrainMembership(n, splits, embargo, k, t);
  }

  /** Nothing is purged before a fold: the sample just before it is always trained on. */
  lemma {:induction false} NoPurgeBefore(n: nat, splits: nat, embargo: nat, k: nat)
    requires splits >= 2 && k < splits && Start(n, splits, k) > 0
    ensures Start(n, splits, k) - 1 in FoldAt(n, splits, embargo, k).train
  {
    Bounds(n, splits, k);
    TrainMembership(n, splits, embargo, k, Start(n, splits, k) - 1);
  }

  /** No training sample of the fold lies within `h` positions of one of its validation samples:
      with labels that look `h` positions ahead, nothing leaks either way. */
  ghost predicate LeakFree(n: nat, splits: nat, embargo: nat, k: nat, h: nat)
    requires splits >= 2
  {
    var f := FoldAt(n, splits, embargo, k);
    forall t, v :: t in f.train && v in f.val ==> t + h < v || v + h < t
  }

  lemma {:induction false} ValMembership(n: nat, splits: nat, embargo: nat, k: nat, v: nat)
    requires splits >= 2 && k < splits
    ensures v in FoldAt(n, splits, embargo, k).val <==> Start(n, splits, k) <= v < Stop(n, splits, k)
  {
    if Start(n, splits, k) <= v < Stop(n, splits, k) {
      assert Range(Start(n, splits, k), Stop(n, splits, k))[v - Start(n, splits, k)] == v;
    }
  }

  lemma {:induction false} LeaksBefore(n: nat, splits: nat, embargo: nat, k: nat, h: nat)
    requires splits >= 2 && k < splits && 0 < Start(n, splits, k) < Stop(n, splits, k) && h > 0
    ensures !LeakFree(n, splits, embargo, k, h)
  {
    NoPurgeBefore(n, splits, embargo, k);
    ValMembership(n, splits, embargo, k, Start(n, splits, k));
  }

  lemma {:induction false} LeaksAfter(n: nat, splits: nat, embargo: nat, k: nat, h: nat)
    requires splits >= 2 && k < splits && Start(n, splits, k) < Stop(n, splits, k)
    requires h > embargo && Stop(n, splits, k) + embargo < n
    ensures !LeakFree(n, splits, embargo, k, h)
  {
    ValMembership(n, splits, embargo, k, Stop(n, splits, k) - 1);
    TrainMembership(n, splits, embargo, k, Stop(n, splits, k) + embargo);
  }

  /** Exactly when a fold is free of leaks for labels of horizon `h`: before it only at the start of
      the data, and after it only under an embargo of at least `h` or up to the end of the data. */
  lemma {:induction false} LeakFreeExactly(n: nat, splits: nat, embargo: nat, k: nat, h: nat)
    requires splits >= 2 && k < splits && Start(n, splits, k) < Stop(n, splits, k)
    ensures LeakFree(n, splits, embargo, k, h) <==>
              (Start(n, splits, k) == 0 || h == 0) && (h <= embargo || Stop(n, splits, k) + embargo >= n)
  {
    if Start(n, splits, k) > 0 && h > 0 {
      LeaksBefore(n, splits, embargo, k, h);
    } else if h > embargo && Stop(n, splits, k) + embargo < n {
      LeaksAfter(n, splits, embargo, k, h);
    } else {
      forall t, v | t in FoldAt(n, splits, embargo, k).train && v in FoldAt(n, splits, embargo, k).val
        ensures t + h < v || v + h < t
      {
        TrainMembership(n, splits, embargo, k, t);
        ValMembership(n, splits, embargo, k, v);
      }
    }
  }

  /** No embargo makes all folds free of leaks, unless labels look no further than their own
      position or there is only one fold with samples in it. */
  lemma {:induction false} SplitLeakFree(n: nat, splits: nat, embargo: nat, h: nat)
    requires splits >= 2
    ensures (forall k :: 0 <= k < splits ==> LeakFree(n, splits, embargo, k, h)) <==> h == 0 || n / splits == 0
  {
    if h > 0 && n / splits > 0 {
      Bounds(n, splits, 1);
      LeaksBefore(n, splits, embargo, 1, h);
    } else {
      forall k | 0 <= k < splits
        ensures LeakFree(n, splits, embargo, k, h)
      {
        Bounds(n, splits, k);
        if Start(n, splits, k) < Stop(n, splits, k) {
          LeakFreeExactly(n, splits, embargo, k, h);
        }
      }
    }
  }

  /** In how many of the first `m` folds sample `i` is trained on. */
  function TrainCount(n: nat, splits: nat, embargo: nat, i: nat, m: nat): nat
    requires splits >= 2
  {
    if m == 0 then 0
    else TrainCount(n, splits, embargo, i, m - 1) + (if TrainsOn(n, splits, embargo, m - 1, i) then 1 else 0)
  }

  lemma {:induction false} StartsApart(n: nat, splits: nat, j: nat, k: nat)
    requires splits >= 2 && j < k < splits
    ensures Stop(n, splits, j) <= Start(n, splits, k)
  {
    MulMonotone(j + 1, k, n / splits);
  }

  /** The first fold whose embargo run reaches beyond sample `i`. */
  function FirstReaching(n: nat, splits: nat, embargo: nat, i: nat): nat
    requires splits >= 2
  {
    if i < embargo then 0 else if n / splits == 0 then splits else (i - embargo) / (n / splits)
  }

  lemma {:induction false} QuotientBelow(x: nat, f: nat, k: nat, fk: nat)
    requires f > 0 && fk == (k + 1) * f
    ensures x < fk <==> x / f <= k
  {
    var q := x / f;
    assert x == f * q + x % f;
    if q <= k {
      MulMonotone(q + 1, k + 1, f);
      assert (q + 1) * f == f * q + f;
    } else {
      MulMonotone(k + 1, q, f);
    }
  }

  lemma {:induction false} Reaching(n: nat, splits: nat, embargo: nat, i: nat, k: nat)
    requires splits >= 2 && k < splits - 1
    ensures i < Stop(n, splits, k) + embargo <==> FirstReaching(n, splits, embargo, i) <= k
  {
    if i >= embargo && n / splits > 0 {
      QuotientBelow(i - embargo, n / splits, k, Stop(n, splits, k));
    }
  }

  /** The folds that train on a sample: not its own, and none before it whose embargo reaches it. */
  lemma {:induction false} TrainsOnExactly(n: nat, splits: nat, embargo: nat, i: nat, home: nat, k: nat)
    requires splits >= 2 && k < splits && home < splits
    requires Start(n, splits, home) <= i < Stop(n, splits, home)
    ensures TrainsOn(n, splits, embargo, k, i) <==> k != home && (k < home ==> k < FirstReaching(n, splits, embargo, i))
  {
    TrainMembership(n, splits, embargo, k, i);
    Bounds(n, splits, home);
    Bounds(n, splits, k);
    if k > home {
      StartsApart(n, splits, home, k);
    } else if k < home {
      StartsApart(n, splits, k, home);
      Reaching(n, splits, embargo, i, k);
    }
  }

  lemma {:induction false} TrainCountUpTo(n: nat, splits: nat, embargo: nat, i: nat, home: nat, m: nat)
    requires splits >= 2 && m <= splits && home < splits
    requires Start(n, splits, home) <= i < Stop(n, splits, home)
    ensures var first, before := FirstReaching(n, splits, embargo, i), Min(m, home);
            TrainCount(n, splits, embargo, i, m) == m - (if m > home then 1 else 0) - (if first < before then before - first else 0)
  {
    hide Start, Stop, FirstReaching, TrainsOn;
    if m > 0 {
      TrainCountUpTo(n, splits, embargo, i, home, m - 1);
      TrainsOnExactly(n, splits, embargo, i, home, m - 1);
    }
  }

  /** For every embargo: a sample is trained on in every fold but its own and the earlier ones from
      the first whose embargo reaches it. */
  lemma {:induction false} TrainedOn(n: nat, splits: nat, embargo: nat, i: nat) returns (home: nat)
    requires splits >= 2 && i < n
    ensures home < splits && i in FoldAt(n, splits, embargo, home).val
    ensures var first := FirstReaching(n, splits, embargo, i);
            TrainCount(n, splits, embargo, i, splits) == splits - 1 - (if first < home then home - first else 0)
  {
    home := OneHome(n, splits, embargo, i);
    TrainCountUpTo(n, splits, embargo, i, home, splits);
  }

  /** With an embargo no longer than a fold, at most one earlier fold is lost: the one before the
      sample's own, when the sample lies in its embargo. */
  lemma {:induction false} ShortEmbargo(n: nat, splits: nat, embargo: nat, i: nat) returns (home: nat)
    requires splits >= 2 && i < n && embargo <= n / splits
    ensures home < splits && i in FoldAt(n, splits, embargo, home).val
    ensures TrainCount(n, splits, embargo, i, splits)
         == splits - 1 - (if home > 0 && i < Start(n, splits, home) + embargo then 1 else 0)
  {
    home := TrainedOn(n, splits, embargo, i);
    ValMembership(n, splits, embargo, home, i);
    if home > 0 {
      Bounds(n, splits, home - 1);
      Reaching(n, splits, embargo, i, home - 1);
    }
    if home > 1 {
      Bounds(n, splits, home - 2);
      Reaching(n, splits, embargo, i, home - 2);
    }
  }

  function TrainTotal(n: nat, splits: nat, embargo: nat, m: nat): nat
    requires splits >= 2
  {
    if m == 0 then 0 else TrainTotal(n, splits, embargo, m - 1) + |FoldAt(n, splits, embargo, m - 1).train|
  }

  function EmbargoTotal(n: nat, splits: nat, embargo: nat, m: nat): int
    requires splits >= 2
  {
    if m == 0 then 0
    else EmbargoTotal(n, splits, embargo, m - 1) + (Resume(n, splits, embargo, m - 1) - Stop(n, splits, m - 1))
  }

  lemma {:induction false} FoldSizes(n: nat, splits: nat, embargo: nat, k: nat)
    requires splits >= 2 && k < splits
    ensures var f := FoldAt(n, splits, embargo, k);
            |f.train| + |f.val| + (Resume(n, splits, embargo, k) - Stop(n, splits, k)) == n
  {
    Bounds(n, splits, k);
  }

  lemma {:induction false} TrainTotalUpTo(n: nat, splits: nat, embargo: nat, m: nat)
    requires splits >= 2 && m <= splits
    ensures TrainTotal(n, splits, embargo, m) + |Validated(n, splits, embargo, m)| + EmbargoTotal(n, splits, embargo, m) == m * n
  {
    hide FoldAt, Resume, Stop;
    if m > 0 {
      TrainTotalUpTo(n, splits, embargo, m - 1);
      FoldSizes(n, splits, embargo, m - 1);
      OneMore(m - 1, n);
    }
  }

  lemma {:induction false} OneMore(m: nat, n: nat)
    ensures (m + 1) * n == m * n + n
  {
  }

  /** The sizes of all training sets and of the clipped embargo runs account for every fold. */
  lemma {:induction false} SizesAddUp(n: nat, splits: nat, embargo: nat)
    requires splits >= 2
    ensures TrainTotal(n, splits, embargo, splits) == (splits - 1) * n - EmbargoTotal(n, splits, embargo, splits)
  {
    TrainTotalUpTo(n, splits, embargo, splits);
    FoldsPartition(n, splits, embargo);
    OneMore(splits - 1, n);
  }
}
