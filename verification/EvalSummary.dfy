/** The roll-up of one evaluation: means and nearest-rank percentiles over the case results. */
module EvalSummary {

  import opened Reals
  import opened Rounding
  import opened Sorting
  import opened Wrappers

  datatype CaseResult = CaseResult(correct: bool, faithfulness: Option<real>, relevancy: Option<real>, latencyMs: Option<real>)

  datatype Summary = Summary(correctness: Option<real>, faithfulness: Option<real>, relevancy: Option<real>,
                             p50: Option<real>, p95: Option<real>)

  /** The values of one field that are present, in order. */
  function Column(rs: seq<CaseResult>, field: CaseResult -> Option<real>): seq<real> {
    if rs == [] then []
    else (if field(rs[0]).Some? then [field(rs[0]).value] else []) + Column(rs[1..], field)
  }

  function Correctness(): CaseResult -> Option<real> {
    (r: CaseResult) => Some(if r.correct then 1.0 else 0.0)
  }

  function Faithfulness(): CaseResult -> Option<real> {
    (r: CaseResult) => r.faithfulness
  }

  function Relevancy(): CaseResult -> Option<real> {
    (r: CaseResult) => r.relevancy
  }

  function Latency(): CaseResult -> Option<real> {
    (r: CaseResult) => r.latencyMs
  }

  function Latencies(rs: seq<CaseResult>): seq<real> {
    Column(rs, Latency())
  }

  function Ascending(s: seq<real>): seq<real> {
    SortBy(s, Negated())
  }

  function Negated(): real -> real {
    x => 0.0 - x
  }

  ghost predicate Increasing(s: seq<real>) {
    forall i, j :: 0 <= i < j < |s| ==> s[i] <= s[j]
  }

  /** The exact, unrounded index of the percentile among `n` values. */
  function Rank(p: nat, n: nat): real
    requires n > 0
  {
    (p as real / 100.0) * (n - 1) as real
  }

  /** The rounded index, clamped into the array as the code does. */
  function Index(p: nat, n: nat): (k: nat)
    requires n > 0
    ensures k < n
  {
    var k := RoundHalfEven(Rank(p, n));
    var capped := if n - 1 < k then n - 1 else k;
    if capped < 0 then 0 else capped
  }

  function Percentile(sorted: seq<real>, p: nat): Option<real> {
    if sorted == [] then None else Some(sorted[Index(p, |sorted|)])
  }

  /** The percentile of the latencies that are present. */
  function LatencyPercentile(rs: seq<CaseResult>, p: nat): Option<real> {
    Percentile(Ascending(Latencies(rs)), p)
  }

  lemma {:induction false} AscendingMeaning(s: seq<real>)
    ensures Increasing(Ascending(s)) && multiset(Ascending(s)) == multiset(s) && |Ascending(s)| == |s|
  {
    SortMeaning(s, Negated());
    var t := Ascending(s);
    forall i, j | 0 <= i < j < |t|
      ensures t[i] <= t[j]
    {
      assert Negated()(t[i]) >= Negated()(t[j]);
    }
  }

  lemma {:induction false} MiddleOut<T>(front: seq<T>, x: T, back: seq<T>, whole: seq<T>)
    requires whole == front + ([x] + back)
    ensures multiset(whole) == multiset{x} + multiset(front + back)
  {
    assert multiset(whole) == multiset(front) + multiset([x] + back);
  }

  lemma {:induction false} SameRest<T>(m: multiset<T>, n: multiset<T>, x: T)
    requires multiset{x} + m == multiset{x} + n
    ensures m == n
  {
    assert m == (multiset{x} + m) - multiset{x};
    assert n == (multiset{x} + n) - multiset{x};
  }

  /** The first element of a permutation, found again in the other sequence. */
  lemma {:induction false} PermutedHead<T>(a: seq<T>, b: seq<T>) returns (k: nat)
    requires multiset(a) == multiset(b) && a != []
    ensures k < |b| && b[k] == a[0]
    ensures b == b[..k] + ([a[0]] + b[k + 1..])
    ensures multiset(a[1..]) == multiset(b[..k] + b[k + 1..])
    ensures |a| == |b|
  {
    assert a[0] in multiset(b);
    k :| 0 <= k < |b| && b[k] == a[0];
    assert a == [a[0]] + a[1..];
    assert b == b[..k] + ([a[0]] + b[k + 1..]);
    assert |multiset(a)| == |multiset(b)|;
    MiddleOut(b[..k], a[0], b[k + 1..], b);
    assert multiset(a) == multiset{a[0]} + multiset(a[1..]);
    SameRest(multiset(a[1..]), multiset(b[..k] + b[k + 1..]), a[0]);
  }

  lemma {:induction false} IncreasingHead(a: seq<real>, b: seq<real>)
    requires Increasing(a) && multiset(a) == multiset(b) && b != []
    ensures a != [] && a[0] <= b[0]
  {
    var k := PermutedHead(b, a);
  }

  lemma {:induction false} IncreasingTail(a: seq<real>)
    requires Increasing(a) && a != []
    ensures Increasing(a[1..])
  {
    var t := a[1..];
    forall i, j | 0 <= i < j < |t|
      ensures t[i] <= t[j]
    {
      assert a[i + 1] <= a[j + 1];
    }
  }

  lemma {:induction false} TailsPermuted<T>(a: seq<T>, b: seq<T>)
    requires multiset(a) == multiset(b) && a != [] && b != [] && a[0] == b[0]
    ensures multiset(a[1..]) == multiset(b[1..])
  {
    assert a == [a[0]] + a[1..] && b == [b[0]] + b[1..];
    assert multiset(a[1..]) == multiset(a) - multiset{a[0]};
    assert multiset(b[1..]) == multiset(b) - multiset{a[0]};
  }

  lemma {:induction false} EmptyPermuted<T>(a: seq<T>, b: seq<T>)
    requires multiset(a) == multiset(b) && a == []
    ensures b == []
  {
    assert |multiset(b)| == |b|;
  }

  /** An increasing sequence is determined by its elements. */
  lemma {:induction false} IncreasingUnique(a: seq<real>, b: seq<real>)
    requires Increasing(a) && Increasing(b) && multiset(a) == multiset(b)
    ensures a == b
  {
    if a == [] {
      EmptyPermuted(a, b);
    } else {
      if b == [] {
        EmptyPermuted(b, a);
      }
      IncreasingHead(a, b);
      IncreasingHead(b, a);
      TailsPermuted(a, b);
      IncreasingTail(a);
      IncreasingTail(b);
      IncreasingUnique(a[1..], b[1..]);
      assert a == [a[0]] + a[1..] && b == [b[0]] + b[1..];
    }
  }

  lemma {:induction false} HeadFirst<T>(head: seq<T>, a: seq<T>, b: seq<T>)
    ensures head + (a + b) == (head + a) + b
  {
  }

  lemma {:induction false} ColumnSplit(a: seq<CaseResult>, b: seq<CaseResult>, field: CaseResult -> Option<real>)
    ensures Column(a + b, field) == Column(a, field) + Column(b, field)
  {
    if a == [] {
      assert a + b == b;
    } else {
      assert (a + b)[1..] == a[1..] + b;
      ColumnSplit(a[1..], b, field);
      HeadFirst(if field(a[0]).Some? then [field(a[0]).value] else [], Column(a[1..], field), Column(b, field));
    }
  }

  lemma {:induction false} ColumnMiddle(front: seq<CaseResult>, x: CaseResult, back: seq<CaseResult>, field: CaseResult -> Option<real>)
    ensures multiset(Column(front + ([x] + back), field))
         == multiset(Column([x], field)) + multiset(Column(front + back, field))
  {
    ColumnSplit(front, back, field);
    ColumnSplit(front, [x] + back, field);
    ColumnSplit([x], back, field);
  }

  lemma {:induction false} ColumnPermute(a: seq<CaseResult>, b: seq<CaseResult>, field: CaseResult -> Option<real>)
    requires multiset(a) == multiset(b)
    ensures multiset(Column(a, field)) == multiset(Column(b, field))
  {
    if a == [] {
      EmptyPermuted(a, b);
    } else {
      var k := PermutedHead(a, b);
      var front, back := b[..k], b[k + 1..];
      ColumnPermute(a[1..], front + back, field);
      ColumnMiddle(front, a[0], back, field);
      assert a == [a[0]] + a[1..];
      ColumnSplit([a[0]], a[1..], field);
    }
  }

  /** Percentiles do not depend on the order of the case results. */
  lemma {:induction false} PercentileOrderFree(a: seq<CaseResult>, b: seq<CaseResult>, p: nat)
    requires multiset(a) == multiset(b)
    ensures LatencyPercentile(a, p) == LatencyPercentile(b, p)
  {
    ColumnPermute(a, b, Latency());
    AscendingMeaning(Latencies(a));
    AscendingMeaning(Latencies(b));
    IncreasingUnique(Ascending(Latencies(a)), Ascending(Latencies(b)));
  }

  lemma {:induction false} RankBounds(p: nat, q: nat, n: nat)
    requires n > 0 && p <= q <= 100
    ensures 0.0 <= Rank(p, n) <= Rank(q, n) <= (n - 1) as real
  {
    var m := (n - 1) as real;
    var x, y := p as real / 100.0, q as real / 100.0;
    assert 0.0 <= x <= y <= 1.0;
    ScaleUp(0.0, x, m, 0.0, x * m);
    ScaleUp(x, y, m, x * m, y * m);
    ScaleUp(y, 1.0, m, y * m, m);
  }

  /** For percentages the clamp never acts: the index is the rank rounded half to even. */
  lemma {:induction false} IndexIsRounded(p: nat, n: nat)
    requires n > 0 && p <= 100
    ensures Index(p, n) == RoundHalfEven(Rank(p, n))
    ensures -0.5 <= Index(p, n) as real - Rank(p, n) <= 0.5
  {
    RankBounds(p, p, n);
    RoundInside(Rank(p, n), n - 1);
    NearestEven(Rank(p, n));
  }

  /** A higher percentage never gives a smaller value; in particular p50 <= p95. */
  lemma {:induction false} PercentilesOrdered(rs: seq<CaseResult>, p: nat, q: nat)
    requires p <= q <= 100 && Latencies(rs) != []
    ensures LatencyPercentile(rs, p).Some? && LatencyPercentile(rs, q).Some?
    ensures LatencyPercentile(rs, p).value <= LatencyPercentile(rs, q).value
  {
    var s := Ascending(Latencies(rs));
    AscendingMeaning(Latencies(rs));
    RankBounds(p, q, |s|);
    IndexIsRounded(p, |s|);
    IndexIsRounded(q, |s|);
    RoundMonotone(Rank(p, |s|), Rank(q, |s|));
  }

  function AtMost(s: seq<real>, v: real): nat {
    if s == [] then 0 else (if s[0] <= v then 1 else 0) + AtMost(s[1..], v)
  }

  function AtLeast(s: seq<real>, v: real): nat {
    if s == [] then 0 else (if s[0] >= v then 1 else 0) + AtLeast(s[1..], v)
  }

  lemma {:induction false} CountsSplit(a: seq<real>, b: seq<real>, v: real)
    ensures AtMost(a + b, v) == AtMost(a, v) + AtMost(b, v)
    ensures AtLeast(a + b, v) == AtLeast(a, v) + AtLeast(b, v)
  {
    if a == [] {
      assert a + b == b;
    } else {
      assert (a + b)[1..] == a[1..] + b;
      CountsSplit(a[1..], b, v);
    }
  }

  lemma {:induction false} CountsPermute(a: seq<real>, b: seq<real>, v: real)
    requires multiset(a) == multiset(b)
    ensures AtMost(a, v) == AtMost(b, v) && AtLeast(a, v) == AtLeast(b, v)
  {
    if a == [] {
      EmptyPermuted(a, b);
    } else {
      var k := PermutedHead(a, b);
      var front, back := b[..k], b[k + 1..];
      CountsPermute(a[1..], front + back, v);
      CountsSplit(front, back, v);
      CountsSplit(front, [a[0]] + back, v);
      CountsSplit([a[0]], back, v);
      CountsSplit([a[0]], a[1..], v);
      assert a == [a[0]] + a[1..];
    }
  }

  lemma {:induction false} CountAll(s: seq<real>, v: real)
    ensures (forall i :: 0 <= i < |s| ==> s[i] <= v) ==> AtMost(s, v) == |s|
    ensures (forall i :: 0 <= i < |s| ==> s[i] >= v) ==> AtLeast(s, v) == |s|
  {
    if s != [] {
      CountAll(s[1..], v);
      assert forall i :: 0 <= i < |s| - 1 ==> s[1..][i] == s[i + 1];
    }
  }

  lemma {:induction false} LowCount(s: seq<real>, k: nat)
    requires Increasing(s) && k < |s|
    ensures AtMost(s, s[k]) >= k + 1
  {
    CountAll(s[..k + 1], s[k]);
    CountsSplit(s[..k + 1], s[k + 1..], s[k]);
    assert s == s[..k + 1] + s[k + 1..];
  }

  lemma {:induction false} HighCount(s: seq<real>, k: nat)
    requires Increasing(s) && k < |s|
    ensures AtLeast(s, s[k]) >= |s| - k
  {
    CountAll(s[k..], s[k]);
    CountsSplit(s[..k], s[k..], s[k]);
    assert s == s[..k] + s[k..];
  }

  /** The percentile as an order statistic of the unsorted latencies: with k its index, at least
      k + 1 of them are at most the value and at least n - k are at least it. */
  lemma {:induction false} OrderStatistic(rs: seq<CaseResult>, p: nat)
    requires Latencies(rs) != []
    ensures var lats := Latencies(rs);
            var k, v := Index(p, |lats|), LatencyPercentile(rs, p);
            && v.Some? && v.value in lats
            && AtMost(lats, v.value) >= k + 1 && AtLeast(lats, v.value) >= |lats| - k
  {
    var lats := Latencies(rs);
    var s := Ascending(lats);
    AscendingMeaning(lats);
    var k := Index(p, |s|);
    assert s[k] in multiset(s);
    LowCount(s, k);
    HighCount(s, k);
    CountsPermute(s, lats, s[k]);
  }

  // ----- Means -----

  function Sum(s: seq<real>): real {
    if s == [] then 0.0 else s[0] + Sum(s[1..])
  }

  function MeanOf(s: seq<real>): Option<real> {
    if s == [] then None else Some(Sum(s) / |s| as real)
  }

  lemma {:induction false} SumBetween(s: seq<real>, lo: real, hi: real)
    requires forall i :: 0 <= i < |s| ==> lo <= s[i] <= hi
    ensures lo * |s| as real <= Sum(s) <= hi * |s| as real
  {
    if s != [] {
      SumBetween(s[1..], lo, hi);
      var n := (|s| - 1) as real;
      assert |s| as real == n + 1.0;
      assert lo * (n + 1.0) == lo * n + lo && hi * (n + 1.0) == hi * n + hi;
    }
  }

  /** A mean lies between any bounds of its samples. */
  lemma {:induction false} MeanBetween(s: seq<real>, lo: real, hi: real)
    requires s != [] && forall i :: 0 <= i < |s| ==> lo <= s[i] <= hi
    ensures MeanOf(s).Some? && lo <= MeanOf(s).value <= hi
  {
    SumBetween(s, lo, hi);
    Quotient(Sum(s), |s| as real, lo, hi);
  }

  lemma {:induction false} Quotient(sum: real, n: real, lo: real, hi: real)
    requires n > 0.0 && lo * n <= sum <= hi * n
    ensures lo <= sum / n <= hi
  {
    var m := sum / n;
    assert m * n == sum;
    if m < lo {
      ScaleStrict(m, lo, n, sum, lo * n);
    }
    if hi < m {
      ScaleStrict(hi, m, n, hi * n, sum);
    }
  }

  function MeanOfColumn(rs: seq<CaseResult>, field: CaseResult -> Option<real>): Option<real> {
    MeanOf(Column(rs, field))
  }

  /** The columns of one evaluation run. */
  function Summarize(rs: seq<CaseResult>): Summary {
    if rs == [] then Summary(None, None, None, None, None)
    else Summary(MeanOfColumn(rs, Correctness()), MeanOfColumn(rs, Faithfulness()), MeanOfColumn(rs, Relevancy()),
                 LatencyPercentile(rs, 50), LatencyPercentile(rs, 95))
  }

  lemma {:induction false} SumSplit(a: seq<real>, b: seq<real>)
    ensures Sum(a + b) == Sum(a) + Sum(b)
  {
    if a == [] {
      assert a + b == b;
    } else {
      assert (a + b)[1..] == a[1..] + b;
      SumSplit(a[1..], b);
    }
  }

  lemma {:induction false} SumPermute(a: seq<real>, b: seq<real>)
    requires multiset(a) == multiset(b)
    ensures Sum(a) == Sum(b) && |a| == |b|
  {
    if a == [] {
      EmptyPermuted(a, b);
    } else {
      var k := PermutedHead(a, b);
      var front, back := b[..k], b[k + 1..];
      SumPermute(a[1..], front + back);
      SumSplit(front, back);
      SumSplit(front, [a[0]] + back);
      SumSplit([a[0]], back);
    }
  }

  lemma {:induction false} MeanPermute(a: seq<CaseResult>, b: seq<CaseResult>, field: CaseResult -> Option<real>)
    requires multiset(a) == multiset(b)
    ensures MeanOfColumn(a, field) == MeanOfColumn(b, field)
  {
    ColumnPermute(a, b, field);
    SumPermute(Column(a, field), Column(b, field));
  }

  /** The summary does not depend on the order in which the cases were run. */
  lemma {:induction false} SummaryOrderFree(a: seq<CaseResult>, b: seq<CaseResult>)
    requires multiset(a) == multiset(b)
    ensures Summarize(a) == Summarize(b)
  {
    if a == [] {
      EmptyPermuted(a, b);
    } else {
      if b == [] {
        EmptyPermuted(b, a);
      }
      MeanPermute(a, b, Correctness());
      MeanPermute(a, b, Faithfulness());
      MeanPermute(a, b, Relevancy());
      PercentileOrderFree(a, b, 50);
      PercentileOrderFree(a, b, 95);
    }
  }

  lemma {:induction false} ColumnInRange(rs: seq<CaseResult>, field: CaseResult -> Option<real>, lo: real, hi: real)
    requires forall r :: r in rs && field(r).Some? ==> lo <= field(r).value <= hi
    ensures forall v :: v in Column(rs, field) ==> lo <= v <= hi
    ensures Column(rs, field) == [] <==> forall r :: r in rs ==> field(r).None?
  {
    if rs != [] {
      ColumnInRange(rs[1..], field, lo, hi);
      assert rs == [rs[0]] + rs[1..];
    }
  }

  /** A mean is missing exactly when every sample is, and otherwise lies between any bounds of the
      samples that are present. */
  lemma {:induction false} MeanInRange(rs: seq<CaseResult>, field: CaseResult -> Option<real>, lo: real, hi: real)
    requires forall r :: r in rs && field(r).Some? ==> lo <= field(r).value <= hi
    ensures MeanOfColumn(rs, field).None? <==> forall r :: r in rs ==> field(r).None?
    ensures MeanOfColumn(rs, field).Some? ==> lo <= MeanOfColumn(rs, field).value <= hi
  {
    ColumnInRange(rs, field, lo, hi);
    var s := Column(rs, field);
    if s != [] {
      assert forall i :: 0 <= i < |s| ==> s[i] in s;
      MeanBetween(s, lo, hi);
    }
  }

  /** A summary of any results: correctness is a fraction, and the two latencies are either both
      missing or in order. */
  lemma {:induction false} SummaryRanges(rs: seq<CaseResult>)
    ensures var s := Summarize(rs);
            && (rs == [] <==> s.correctness.None?)
            && (s.correctness.Some? ==> 0.0 <= s.correctness.value <= 1.0)
            && (s.p50.Some? <==> Latencies(rs) != []) && (s.p95.Some? <==> s.p50.Some?)
            && (s.p50.Some? ==> s.p50.value <= s.p95.value)
  {
    AscendingMeaning(Latencies(rs));
    if rs != [] {
      MeanInRange(rs, Correctness(), 0.0, 1.0);
      assert rs[0] in rs && Correctness()(rs[0]).Some?;
      if Latencies(rs) != [] {
        PercentilesOrdered(rs, 50, 95);
      }
    }
  }

  // ----- The columns, without the functions that name them -----

  /** A column, fixed by what it takes from one result. */
  lemma {:induction false} ColumnLaw(a: seq<CaseResult>, r: CaseResult, b: seq<CaseResult>, field: CaseResult -> Option<real>)
    ensures Column([], field) == []
    ensures Column(a + [r] + b, field)
         == Column(a, field) + (if field(r).Some? then [field(r).value] else []) + Column(b, field)
  {
    ColumnSplit(a + [r], b, field);
    ColumnSplit(a, [r], field);
  }

  lemma {:induction false} SumLaw(s: seq<real>, x: real, t: seq<real>)
    ensures Sum([]) == 0.0 && Sum(s + [x] + t) == Sum(s) + x + Sum(t)
  {
    SumSplit(s + [x], t);
    SumSplit(s, [x]);
  }

  lemma {:induction false} SameColumn(rs: seq<CaseResult>, f: CaseResult -> Option<real>, g: CaseResult -> Option<real>)
    requires forall r :: f(r) == g(r)
    ensures Column(rs, f) == Column(rs, g)
  {
    if rs != [] {
      SameColumn(rs[1..], f, g);
    }
  }

  /** `m` is the mean of the samples that are there. */
  ghost predicate IsMean(s: seq<real>, m: Option<real>) {
    && (s == [] ==> m.None?)
    && (s != [] ==> m == Some(Sum(s) / |s| as real))
  }

  /** `v` is the sample of rank k in ascending order, k a whole number nearest to `share` of the way
      from the first to the last, the even one of two. */
  ghost predicate IsPercentile(s: seq<real>, share: real, v: Option<real>) {
    && (s == [] ==> v.None?)
    && (s != [] ==>
          && v.Some? && v.value in s
          && exists k: nat :: HasRank(s, share, k, v.value))
  }

  ghost predicate HasRank(s: seq<real>, share: real, k: nat, v: real) {
    NearRank(share * (|s| - 1) as real, k) && AtMost(s, v) >= k + 1 && AtLeast(s, v) >= |s| - k
  }

  ghost predicate NearRank(x: real, k: nat) {
    -0.5 <= k as real - x <= 0.5 && (k as real - x == 0.5 || k as real - x == -0.5 ==> k % 2 == 0)
  }

  lemma {:induction false} PercentileMeaning(rs: seq<CaseResult>, p: nat, share: real)
    requires p <= 100 && share == p as real / 100.0
    ensures IsPercentile(Latencies(rs), share, LatencyPercentile(rs, p))
  {
    hide AtMost, AtLeast, Latencies, Ascending, Index;
    var s := Latencies(rs);
    AscendingMeaning(s);
    if s != [] {
      OrderStatistic(rs, p);
      IndexIsRounded(p, |s|);
      NearestEven(Rank(p, |s|));
      assert HasRank(s, share, Index(p, |s|), LatencyPercentile(rs, p).value);
    }
  }

  /** Which field feeds which column, and how: three means, and the latencies' percentiles at one
      half and at nineteen twentieths. */
  lemma {:induction false} SummaryColumns(rs: seq<CaseResult>, correct: CaseResult -> Option<real>, faithful: CaseResult -> Option<real>,
                                          relevant: CaseResult -> Option<real>, latency: CaseResult -> Option<real>)
    requires forall r :: correct(r) == Some(if r.correct then 1.0 else 0.0)
    requires forall r :: faithful(r) == r.faithfulness && relevant(r) == r.relevancy && latency(r) == r.latencyMs
    ensures var s := Summarize(rs);
            && IsMean(Column(rs, correct), s.correctness)
            && IsMean(Column(rs, faithful), s.faithfulness)
            && IsMean(Column(rs, relevant), s.relevancy)
            && IsPercentile(Column(rs, latency), 0.5, s.p50)
            && IsPercentile(Column(rs, latency), 0.95, s.p95)
  {
    hide IsPercentile, LatencyPercentile, Sum;
    SameColumn(rs, correct, Correctness());
    SameColumn(rs, faithful, Faithfulness());
    SameColumn(rs, relevant, Relevancy());
    SameColumn(rs, latency, Latency());
    PercentileMeaning(rs, 50, 0.5);
    PercentileMeaning(rs, 95, 0.95);
    if rs == [] {
      NothingToRank();
    }
  }

  lemma {:induction false} NothingToRank()
    ensures IsPercentile([], 0.5, None) && IsPercentile([], 0.95, None)
  {
  }
}
