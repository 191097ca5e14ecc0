/** Realized volatility over the last returns of the price stream, kept in a circular array.
    Over the reals; the logarithm and the square root are parameters. */
module RealizedVol {

  import RingView
  import opened Circular
  import opened Reals

  const MAX_SAMPLES: nat := 128

  datatype Math = Math(log: real -> real, sqrt: real -> real)

  /** The return from price `before` to price `now`. */
  type Return = (real, real) -> real

  function LogReturn(log: real -> real): Return {
    (now, before) => if before == 0.0 then 0.0 else log(now / before)
  }

  ghost predicate QuotientRule(log: real -> real, a: real, b: real)
    requires b > 0.0
  {
    log(a / b) == log(a) - log(b)
  }

  /** All that is assumed of the logarithm. */
  ghost predicate IsLog(log: real -> real) {
    forall a: real, b: real :: a > 0.0 && b > 0.0 ==> QuotientRule(log, a, b)
  }

  // ----- The statistic, on the price stream alone -----

  predicate AllPositive(ps: seq<real>) {
    forall i :: 0 <= i < |ps| ==> ps[i] > 0.0
  }

  predicate AllEqual(s: seq<real>, c: real) {
    forall i :: 0 <= i < |s| ==> s[i] == c
  }

  function Positive(prices: seq<real>): (ps: seq<real>)
    ensures AllPositive(ps)
  {
    if prices == [] then []
    else
      var ps := Positive(prices[..|prices| - 1]);
      var p := prices[|prices| - 1];
      if p <= 0.0 then ps else ps + [p]
  }

  /** One return per pair of consecutive prices. */
  function Returns(ret: Return, ps: seq<real>): (rs: seq<real>)
    ensures |rs| == if ps == [] then 0 else |ps| - 1
  {
    if |ps| < 2 then []
    else seq(|ps| - 1, i requires 0 <= i < |ps| - 1 => ret(ps[i + 1], ps[i]))
  }

  /** The returns the window is about: the last `capacity`, non-positive prices removed. */
  function Window(ret: Return, capacity: nat, prices: seq<real>): seq<real> {
    LastOf(Returns(ret, Positive(prices)), capacity)
  }

  function Total(s: seq<real>, f: real -> real): real {
    if s == [] then 0.0 else Total(s[..|s| - 1], f) + f(s[|s| - 1])
  }

  function Sum(s: seq<real>): real {
    Total(s, x => x)
  }

  function SumSquares(s: seq<real>): real {
    Total(s, x => x * x)
  }

  /** The square of the distance to `c`. */
  function SquaredFrom(c: real): real -> real {
    x => (x - c) * (x - c)
  }

  function Deviation(s: seq<real>, c: real): real {
    Total(s, SquaredFrom(c))
  }

  function Mean(s: seq<real>): real
    requires s != []
  {
    Sum(s) / |s| as real
  }

  function SampleVariance(s: seq<real>): real
    requires |s| >= 2
  {
    Deviation(s, Mean(s)) / (|s| - 1) as real
  }

  function Volatility(sqrt: real -> real, s: seq<real>): real {
    if |s| < 2 then 0.0 else sqrt(SampleVariance(s))
  }

  // ----- The circular array -----

  datatype Vol = Vol(ring: seq<real>, head: nat, count: nat, last: real)

  function Initial(): (v: Vol)
    ensures |v.ring| == MAX_SAMPLES
  {
    Vol(seq(MAX_SAMPLES, _ => 0.0), 0, 0, 0.0)
  }

  function Update(ret: Return, capacity: nat, v: Vol, price: real): (v': Vol)
    requires 0 < capacity <= MAX_SAMPLES == |v.ring| && v.head < capacity
    ensures |v'.ring| == MAX_SAMPLES && v'.head < capacity
  {
    if price <= 0.0 then v
    else if v.last <= 0.0 then v.(last := price)
    else
      Vol(v.ring[v.head := ret(price, v.last)],
          (v.head + 1) % capacity,
          if v.count < capacity then v.count + 1 else v.count,
          price)
  }

  function After(ret: Return, capacity: nat, prices: seq<real>): (v: Vol)
    requires 0 < capacity <= MAX_SAMPLES
    ensures |v.ring| == MAX_SAMPLES && v.head < capacity
  {
    if prices == [] then Initial()
    else Update(ret, capacity, After(ret, capacity, prices[..|prices| - 1]), prices[|prices| - 1])
  }

  ghost predicate Means(ret: Return, capacity: nat, prices: seq<real>, v: Vol) {
    var ps := Positive(prices);
    && |v.ring| == MAX_SAMPLES
    && v.last == (if ps == [] then 0.0 else ps[|ps| - 1])
    && Holds(v.ring, v.head, v.count, capacity, Returns(ret, ps))
  }

  lemma {:induction false} ReturnsAppend(ret: Return, ps: seq<real>, p: real)
    requires ps != []
    ensures Returns(ret, ps + [p]) == Returns(ret, ps) + [ret(p, ps[|ps| - 1])]
  {
  }

  lemma {:induction false} UpdateKeepsMeaning(ret: Return, capacity: nat, prices: seq<real>, v: Vol, price: real)
    requires 0 < capacity <= MAX_SAMPLES && Means(ret, capacity, prices, v)
    ensures Means(ret, capacity, prices + [price], Update(ret, capacity, v, price))
  {
    var ps := Positive(prices);
    assert (prices + [price])[..|prices|] == prices;
    if price > 0.0 && ps != [] {
      ReturnsAppend(ret, ps, price);
      RingView.ModOfSucc(v.head, capacity);
      Push(v.ring, v.head, v.count, capacity, Returns(ret, ps), ret(price, v.last));
    }
  }

  /** After every price stream the array holds a rotation of the last `capacity` returns. */
  lemma {:induction false} ArrayMeaning(ret: Return, capacity: nat, prices: seq<real>)
    requires 0 < capacity <= MAX_SAMPLES
    ensures Means(ret, capacity, prices, After(ret, capacity, prices))
  {
    if prices == [] {
      assert Initial().ring[..0] == [];
    } else {
      var p := prices[..|prices| - 1];
      ArrayMeaning(ret, capacity, p);
      UpdateKeepsMeaning(ret, capacity, p, After(ret, capacity, p), prices[|prices| - 1]);
      assert p + [prices[|prices| - 1]] == prices;
    }
  }

  // ----- What the two passes compute does not depend on the rotation -----

  lemma {:induction false} TotalAppend(s: seq<real>, x: real, f: real -> real)
    ensures Total(s + [x], f) == Total(s, f) + f(x)
  {
    assert (s + [x])[..|s|] == s;
  }

  lemma {:induction false} TotalConcat(a: seq<real>, b: seq<real>, f: real -> real)
    ensures Total(a + b, f) == Total(a, f) + Total(b, f)
  {
    if b == [] {
      assert a + b == a;
    } else {
      assert (a + b)[..|a + b| - 1] == a + b[..|b| - 1];
      TotalConcat(a, b[..|b| - 1], f);
    }
  }

  lemma {:induction false} RotationInvariant(a: seq<real>, w: seq<real>, head: nat, f: real -> real)
    requires RotatedBy(a, w, head)
    ensures Total(a, f) == Total(w, f)
  {
    var x, y := w[..|w| - head], w[|w| - head..];
    assert x + y == w;
    TotalConcat(x, y, f);
    TotalConcat(y, x, f);
  }

  lemma {:induction false} RotatedVolatility(sqrt: real -> real, a: seq<real>, w: seq<real>, head: nat)
    requires RotatedBy(a, w, head)
    ensures Volatility(sqrt, a) == Volatility(sqrt, w)
  {
    if |w| >= 2 {
      RotationInvariant(a, w, head, x => x);
      assert Mean(a) == Mean(w);
      RotationInvariant(a, w, head, SquaredFrom(Mean(w)));
    }
  }

  /** What the kernel reads off the array is the volatility of the window of returns. */
  lemma {:induction false} ArrayVolatility(ret: Return, sqrt: real -> real, capacity: nat, prices: seq<real>)
    requires 0 < capacity <= MAX_SAMPLES
    ensures var v, w := After(ret, capacity, prices), Window(ret, capacity, prices);
            && v.count == |w| && v.count <= MAX_SAMPLES
            && Volatility(sqrt, v.ring[..v.count]) == Volatility(sqrt, w)
  {
    ArrayMeaning(ret, capacity, prices);
    var v, w := After(ret, capacity, prices), Window(ret, capacity, prices);
    if v.count == capacity {
      RotatedVolatility(sqrt, v.ring[..capacity], w, v.head);
    }
  }

  // ----- Properties of the statistic -----

  lemma {:induction false} TotalCombines(s: seq<real>, f: real -> real, g: real -> real, h: real -> real, a: real, b: real)
    requires forall x :: f(x) == g(x) + a * h(x) + b
    ensures Total(s, f) == Total(s, g) + a * Total(s, h) + |s| as real * b
  {
    if s != [] {
      var t, x := s[..|s| - 1], s[|s| - 1];
      TotalCombines(t, f, g, h, a, b);
      Distribute(a, Total(t, h), h(x));
      Distribute(b, |t| as real, 1.0);
      assert |s| as real == |t| as real + 1.0;
    }
  }

  lemma {:induction false} Distribute(a: real, x: real, y: real)
    ensures a * (x + y) == a * x + a * y
  {
  }

  lemma {:induction false} SquareExpands(x: real, c: real)
    ensures (x - c) * (x - c) == x * x + (-2.0 * c) * x + c * c
  {
  }

  lemma {:induction false} DeviationExpands(s: seq<real>, c: real)
    ensures Deviation(s, c) == SumSquares(s) + (-2.0 * c) * Sum(s) + |s| as real * (c * c)
  {
    var f, g, h := SquaredFrom(c), (x: real) => x * x, (x: real) => x;
    forall x
      ensures f(x) == g(x) + (-2.0 * c) * h(x) + c * c
    {
      SquareExpands(x, c);
    }
    TotalCombines(s, f, g, h, -2.0 * c, c * c);
  }

  /** The two-pass deviation is the one-pass one. */
  lemma {:induction false} TwoPassIsOnePass(s: seq<real>)
    requires s != []
    ensures Deviation(s, Mean(s)) == SumSquares(s) - |s| as real * (Mean(s) * Mean(s))
  {
    var m, n := Mean(s), |s| as real;
    DeviationExpands(s, m);
    MeanTimesCount(Sum(s), n, m);
  }

  lemma {:induction false} MeanTimesCount(sum: real, n: real, m: real)
    requires n > 0.0 && m == sum / n
    ensures (-2.0 * m) * sum + n * (m * m) == -(n * (m * m))
  {
    assert sum == n * m;
    assert (-2.0 * m) * (n * m) == -2.0 * (n * (m * m));
  }

  /** A sum of terms that are non-negative, and zero only at `c`. */
  lemma {:induction false} TotalZero(s: seq<real>, f: real -> real, c: real)
    requires forall x :: (x != c ==> f(x) > 0.0) && (x == c ==> f(x) == 0.0)
    ensures Total(s, f) >= 0.0
    ensures Total(s, f) == 0.0 <==> AllEqual(s, c)
  {
    if s != [] {
      TotalZero(s[..|s| - 1], f, c);
      assert s == s[..|s| - 1] + [s[|s| - 1]];
    }
  }

  lemma {:induction false} SquareSign(d: real, y: real)
    requires y == d * d
    ensures d != 0.0 ==> y > 0.0
    ensures d == 0.0 ==> y == 0.0
  {
    if d > 0.0 {
      PositiveProduct(d, d, y);
    } else if d < 0.0 {
      PositiveProduct(0.0 - d, 0.0 - d, y);
    }
  }

  lemma {:induction false} DeviationZero(s: seq<real>, c: real)
    ensures Deviation(s, c) >= 0.0
    ensures Deviation(s, c) == 0.0 <==> AllEqual(s, c)
  {
    var f := SquaredFrom(c);
    forall x
      ensures (x != c ==> f(x) > 0.0) && (x == c ==> f(x) == 0.0)
    {
      SquaredFromSign(x, c, x - c);
    }
    TotalZero(s, f, c);
  }

  lemma {:induction false} SquaredFromSign(x: real, c: real, d: real)
    requires d == x - c
    ensures x != c ==> SquaredFrom(c)(x) > 0.0
    ensures x == c ==> SquaredFrom(c)(x) == 0.0
  {
    SquareSign(d, SquaredFrom(c)(x));
  }

  lemma {:induction false} SumOfEqual(s: seq<real>, c: real)
    requires AllEqual(s, c)
    ensures Sum(s) == |s| as real * c
  {
    if s != [] {
      SumOfEqual(s[..|s| - 1], c);
      Distribute(c, (|s| - 1) as real, 1.0);
      assert |s| as real == (|s| - 1) as real + 1.0;
    }
  }

  /** The sample variance is never negative, and zero exactly when all returns are equal. */
  lemma {:induction false} VarianceZero(s: seq<real>)
    requires |s| >= 2
    ensures SampleVariance(s) >= 0.0
    ensures SampleVariance(s) == 0.0 <==> AllEqual(s, s[0])
  {
    var m, d := Mean(s), Deviation(s, Mean(s));
    DeviationZero(s, m);
    var n := (|s| - 1) as real;
    assert n >= 1.0;
    assert d == SampleVariance(s) * n;
    if AllEqual(s, s[0]) {
      SumOfEqual(s, s[0]);
      assert m == s[0];
    }
  }

  // ----- What the definitions above come to, in the prices and the returns alone -----

  lemma {:induction false} PositiveConcat(a: seq<real>, b: seq<real>)
    ensures Positive(a + b) == Positive(a) + Positive(b)
  {
    if b == [] {
      assert a + b == a;
    } else {
      assert (a + b)[..|a + b| - 1] == a + b[..|b| - 1];
      PositiveConcat(a, b[..|b| - 1]);
    }
  }

  /** The filter keeps a price exactly when it is above zero, and keeps the order. */
  lemma {:induction false} PositiveIsFilter(a: seq<real>, p: real, b: seq<real>)
    ensures Positive(a + [p] + b) == Positive(a) + (if p > 0.0 then [p] else []) + Positive(b)
    ensures Positive([]) == []
  {
    PositiveConcat(a + [p], b);
    PositiveConcat(a, [p]);
    assert [p][..0] == [];
  }

  /** The window holds one logarithm per pair of neighbours among the last prices. */
  lemma {:induction false} WindowEntries(log: real -> real, capacity: nat, prices: seq<real>, i: nat)
    ensures var ps, w := Positive(prices), Window(LogReturn(log), capacity, prices);
            && (|ps| <= 1 ==> w == [])
            && (1 <= |ps| <= capacity ==> |w| == |ps| - 1)
            && (|ps| > capacity ==> |w| == capacity)
            && (i < |w| ==> w[i] == log(ps[|ps| - |w| + i] / ps[|ps| - |w| + i - 1]))
  {
    var ps := Positive(prices);
    var rs, w := Returns(LogReturn(log), ps), Window(LogReturn(log), capacity, prices);
    if i < |w| {
      var k := |rs| - |w| + i;
      assert w[i] == rs[k] == LogReturn(log)(ps[k + 1], ps[k]);
      assert ps[k] > 0.0;
    }
  }

  /** The two folds, fixed by what they do to one number and to a concatenation. */
  lemma {:induction false} FoldLaws(a: seq<real>, x: real, b: seq<real>)
    ensures Sum([]) == 0.0 && SumSquares([]) == 0.0
    ensures Sum(a + [x] + b) == Sum(a) + x + Sum(b)
    ensures SumSquares(a + [x] + b) == SumSquares(a) + x * x + SumSquares(b)
  {
    TotalConcat(a + [x], b, y => y);
    TotalAppend(a, x, y => y);
    TotalConcat(a + [x], b, y => y * y);
    TotalAppend(a, x, y => y * y);
  }

  lemma {:induction false} CrossMultiply(n: real, q: real, sum: real, m: real, d: real, v: real)
    requires n >= 2.0 && m == sum / n && d == q - n * (m * m) && v == d / (n - 1.0)
    ensures (n * (n - 1.0)) * v == n * q - sum * sum
    ensures n * (n - 1.0) > 0.0
  {
    PositiveProduct(n, n - 1.0, n * (n - 1.0));
    assert sum == n * m;
    assert d == (n - 1.0) * v;
    assert n * d == n * q - n * (n * (m * m));
    assert n * (n * (m * m)) == (n * m) * (n * m);
    assert (n * (n - 1.0)) * v == n * ((n - 1.0) * v);
  }

  lemma {:induction false} Quotient(p: real, v: real, e: real)
    requires p > 0.0 && p * v == e
    ensures v == e / p
  {
  }

  lemma {:induction false} VarianceFromParts(n: real, q: real, sum: real, m: real, d: real, v: real)
    requires n >= 2.0 && m == sum / n && d == q - n * (m * m) && v == d / (n - 1.0)
    ensures n * (n - 1.0) > 0.0
    ensures v == (n * q - sum * sum) / (n * (n - 1.0))
  {
    CrossMultiply(n, q, sum, m, d, v);
    Quotient(n * (n - 1.0), v, n * q - sum * sum);
  }

  /** The sample variance from the two folds alone: the divisor is the number of returns less one. */
  lemma {:induction false} VarianceOfSums(s: seq<real>)
    requires |s| >= 2
    ensures var n := |s| as real;
            && n * (n - 1.0) > 0.0
            && SampleVariance(s) == (n * SumSquares(s) - Sum(s) * Sum(s)) / (n * (n - 1.0))
  {
    hide Sum, SumSquares, Deviation;
    TwoPassIsOnePass(s);
    assert (|s| - 1) as real == |s| as real - 1.0;
    VarianceFromParts(|s| as real, SumSquares(s), Sum(s), Mean(s), Deviation(s, Mean(s)), SampleVariance(s));
  }

  /** `v` is the sample deviation of `w`: the divisor is n * (n - 1), and fewer than two returns give zero. */
  ghost predicate IsSampleDeviation(sqrt: real -> real, w: seq<real>, v: real) {
    var n := |w| as real;
    && (|w| < 2 ==> v == 0.0)
    && (|w| >= 2 ==> n * (n - 1.0) > 0.0
                     && v == sqrt((n * SumSquares(w) - Sum(w) * Sum(w)) / (n * (n - 1.0))))
  }

  lemma {:induction false} VolatilityOfSums(sqrt: real -> real, w: seq<real>)
    ensures IsSampleDeviation(sqrt, w, Volatility(sqrt, w))
  {
    hide SampleVariance, Sum, SumSquares;
    if |w| >= 2 {
      VarianceOfSums(w);
    }
  }

  /** Two returns: half the square of their difference. */
  lemma {:induction false} VarianceOfTwo(a: real, b: real)
    ensures SampleVariance([a, b]) == (a - b) * (a - b) / 2.0
  {
    VarianceOfSums([a, b]);
    FoldLaws([], a, [b]);
    FoldLaws([], b, []);
    assert [] + [a] + [b] == [a, b] && [] + [b] + [] == [b];
    assert 2.0 * (2.0 - 1.0) == 2.0;
    HalfSquare(a, b);
  }

  lemma {:induction false} HalfSquare(a: real, b: real)
    ensures (2.0 * (a * a + b * b) - (a + b) * (a + b)) / 2.0 == (a - b) * (a - b) / 2.0
  {
  }

  function Logs(log: real -> real, ps: seq<real>): (ls: seq<real>)
    ensures |ls| == |ps|
  {
    seq(|ps|, i requires 0 <= i < |ps| => log(ps[i]))
  }

  lemma {:induction false} TelescopingSum(rs: seq<real>, levels: seq<real>, k: nat)
    requires |levels| == |rs| + 1 && k <= |rs|
    requires forall i :: 0 <= i < |rs| ==> rs[i] == levels[i + 1] - levels[i]
    ensures Sum(rs[k..]) == levels[|rs|] - levels[k]
  {
    if k < |rs| {
      var n := |rs| - 1;
      TelescopingSum(rs[..n], levels[..n + 1], k);
      assert rs[k..] == rs[..n][k..] + [rs[n]];
      TotalAppend(rs[..n][k..], rs[n], x => x);
    }
  }

  lemma {:induction false} LogReturnDifference(log: real -> real, now: real, before: real)
    requires IsLog(log) && now > 0.0 && before > 0.0
    ensures LogReturn(log)(now, before) == log(now) - log(before)
  {
    assert QuotientRule(log, now, before);
  }

  lemma {:induction false} ReturnsAreLogDifferences(log: real -> real, ps: seq<real>)
    requires IsLog(log) && AllPositive(ps) && ps != []
    ensures var rs, ls := Returns(LogReturn(log), ps), Logs(log, ps);
            forall i :: 0 <= i < |rs| ==> rs[i] == ls[i + 1] - ls[i]
  {
    forall i | 0 <= i < |ps| - 1
      ensures Returns(LogReturn(log), ps)[i] == Logs(log, ps)[i + 1] - Logs(log, ps)[i]
    {
      LogReturnDifference(log, ps[i + 1], ps[i]);
    }
  }

  /** The returns of the window sum to the log-ratio of its last and its first price. */
  lemma {:induction false} WindowTelescopes(log: real -> real, capacity: nat, prices: seq<real>)
    requires IsLog(log) && Positive(prices) != []
    ensures var ps, w := Positive(prices), Window(LogReturn(log), capacity, prices);
            |w| < |ps| && Sum(w) == log(ps[|ps| - 1]) - log(ps[|ps| - 1 - |w|])
  {
    var ps := Positive(prices);
    var rs := Returns(LogReturn(log), ps);
    var k := |rs| - |LastOf(rs, capacity)|;
    ReturnsAreLogDifferences(log, ps);
    TelescopingSum(rs, Logs(log, ps), k);
    assert rs[k..] == LastOf(rs, capacity);
  }
}
