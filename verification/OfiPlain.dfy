/** The two readings in terms of the ticks' own fields: sums over the whole history, with no notion
    of which ticks a kernel counts. */
module OfiPlain {

  import opened Division
  import opened Ticks
  import opened Sums
  import opened Ofi
  import opened OfiSliding

  predicate Trades(t: Tick) {
    t.size > 0 && (t.side == Buy || t.side == Sell)
  }

  /** Bought minus sold. */
  function Net(): Tick -> int {
    (t: Tick) => if t.side == Buy then t.size else if t.side == Sell then 0 - t.size else 0
  }

  /** Bought plus sold. */
  function Gross(): Tick -> int {
    (t: Tick) => if t.side == Buy || t.side == Sell then t.size else 0
  }

  /** `n` is the newest epoch of any trade, and at least zero. */
  ghost predicate LatestEpoch(w: int64, h: seq<Tick>, n: int)
    requires w > 0
  {
    && n >= 0
    && (forall i :: 0 <= i < |h| && Trades(h[i]) ==> TruncDiv(h[i].ts, w) <= n)
    && (n == 0 || exists i :: 0 <= i < |h| && Trades(h[i]) && TruncDiv(h[i].ts, w) == n)
  }

  /** No trade arrives sixteen or more epochs behind an earlier one, or behind epoch zero. */
  ghost predicate InTime(w: int64, h: seq<Tick>)
    requires w > 0
  {
    forall j :: 0 <= j < |h| && Trades(h[j]) ==>
      TruncDiv(h[j].ts, w) > -16
      && forall i :: 0 <= i < j && Trades(h[i]) ==> TruncDiv(h[j].ts, w) > TruncDiv(h[i].ts, w) - 16
  }

  /** The sum of `f` over all ticks, traded or not, of the sixteen epochs up to `n`. */
  ghost function EpochSum(w: int64, h: seq<Tick>, f: Tick -> int, n: int): int
    requires w > 0
  {
    SumOver(h, f, i => 0 <= i < |h| && n - 15 <= TruncDiv(h[i].ts, w) <= n, |h|)
  }

  lemma {:induction false} LatestIsNewest(w: int64, h: seq<Tick>, n: int)
    requires w > 0
    ensures LatestEpoch(w, h, n) <==> n == Newest(w, h)
  {
    hide TruncDiv;
    forall i | 0 <= i < |h|
      ensures Counted(h[i]) <==> Trades(h[i])
    {
      CountedIsVolume(h[i]);
    }
  }

  lemma {:induction false} InTimePrefix(w: int64, h: seq<Tick>, j: nat)
    requires w > 0 && j < |h| && Trades(h[j])
    ensures TruncDiv(h[j].ts, w) > Newest(w, h[..j]) - 16 <==>
              TruncDiv(h[j].ts, w) > -16
              && forall i :: 0 <= i < j && Trades(h[i]) ==> TruncDiv(h[j].ts, w) > TruncDiv(h[i].ts, w) - 16
  {
    hide TruncDiv;
    LatestIsNewest(w, h[..j], Newest(w, h[..j]));
    var p, n := h[..j], Newest(w, h[..j]);
    assert forall i :: 0 <= i < j ==> p[i] == h[i];
    if n != 0 {
      var i :| 0 <= i < |p| && Trades(p[i]) && TruncDiv(p[i].ts, w) == n;
      assert h[i] == p[i];
    }
  }

  lemma {:induction false} InTimeIsTimely(w: int64, h: seq<Tick>)
    requires w > 0
    ensures InTime(w, h) <==> Timely(w, h)
  {
    hide TruncDiv, Newest;
    forall j | 0 <= j < |h|
      ensures Counted(h[j]) <==> Trades(h[j])
      ensures Trades(h[j]) ==>
                (Epoch(w, h[j]) > Newest(w, h[..j]) - 16 <==>
                   TruncDiv(h[j].ts, w) > -16
                   && forall i :: 0 <= i < j && Trades(h[i]) ==> TruncDiv(h[j].ts, w) > TruncDiv(h[i].ts, w) - 16)
    {
      CountedIsVolume(h[j]);
      if Trades(h[j]) {
        InTimePrefix(w, h, j);
      }
    }
  }

  lemma {:induction false} WindowIsEpochs(w: int64, h: seq<Tick>, f: Tick -> int, n: int)
    requires w > 0 && n == Newest(w, h)
    requires forall t :: t in h && !Counted(t) ==> f(t) == 0
    ensures WindowSum(w, h, f) == EpochSum(w, h, f, n)
  {
    hide TruncDiv, Newest;
    SumKeepsZeros(h, f, i => InWindow(w, h, i), i => 0 <= i < |h| && n - 15 <= TruncDiv(h[i].ts, w) <= n, |h|);
  }

  lemma {:induction false} SameTerms(h: seq<Tick>, f: Tick -> int, g: Tick -> int, k: int -> bool, n: nat)
    requires n <= |h| && forall t :: t in h ==> f(t) == g(t)
    ensures SumOver(h, f, k, n) == SumOver(h, g, k, n)
  {
    if n > 0 {
      SameTerms(h, f, g, k, n - 1);
    }
  }

  lemma {:induction false} NetVolumes(t: Tick)
    ensures Net()(t) == Signed(t) && (!Counted(t) ==> Signed(t) == 0)
    ensures Counted(t) ==> Gross()(t) == Volume(t) == t.size
    ensures !Counted(t) ==> Gross()(t) == 0
  {
  }

  lemma {:induction false} NetWindow(w: int64, h: seq<Tick>, n: int)
    requires w > 0 && n == Newest(w, h)
    ensures WindowSum(w, h, Signed) == EpochSum(w, h, Net(), n)
  {
    hide TruncDiv, Newest, Net, Signed, Counted;
    forall t | t in h
      ensures Net()(t) == Signed(t) && (!Counted(t) ==> Signed(t) == 0)
    {
      NetVolumes(t);
    }
    WindowIsEpochs(w, h, Signed, n);
    SameTerms(h, Signed, Net(), i => 0 <= i < |h| && n - 15 <= TruncDiv(h[i].ts, w) <= n, |h|);
  }

  lemma {:induction false} SameKept(h: seq<Tick>, f: Tick -> int, g: Tick -> int, k: int -> bool, n: nat)
    requires n <= |h| && forall i :: 0 <= i < n && k(i) ==> f(h[i]) == g(h[i])
    ensures SumOver(h, f, k, n) == SumOver(h, g, k, n)
  {
    if n > 0 {
      SameKept(h, f, g, k, n - 1);
    }
  }

  lemma {:induction false} GrossWindow(w: int64, h: seq<Tick>, n: int)
    requires w > 0 && n == Newest(w, h)
    ensures WindowSum(w, h, Volume) == EpochSum(w, h, Gross(), n)
  {
    hide TruncDiv, Newest, Gross, Volume, Counted;
    forall t | t in h
      ensures Counted(t) ==> Gross()(t) == Volume(t)
      ensures !Counted(t) ==> Gross()(t) == 0
    {
      NetVolumes(t);
    }
    SameKept(h, Volume, Gross(), i => InWindow(w, h, i), |h|);
    WindowIsEpochs(w, h, Gross(), n);
  }

  /** The sliding window over the ticks themselves: with trades in time, the imbalance is bought
      minus sold, and the volume bought plus sold, over all ticks of the sixteen epochs up to the
      newest trade. */
  lemma {:induction false} PlainWindow(w: int64, h: seq<Tick>, n: int)
    requires w > 0 && InTime(w, h) && LatestEpoch(w, h, n)
    ensures SurvivingSum(w, h, Signed) == EpochSum(w, h, Net(), n)
    ensures SurvivingSum(w, h, Volume) == EpochSum(w, h, Gross(), n)
  {
    InTimeIsTimely(w, h);
    LatestIsNewest(w, h, n);
    TimelyIsExact(w, h);
    ExactSums(w, h, Signed);
    ExactSums(w, h, Volume);
    NetWindow(w, h, n);
    GrossWindow(w, h, n);
  }

  /** Tick `i` is of the sixteen epochs up to `n`, and no later trade lies a multiple of sixteen
      epochs away from it. */
  ghost predicate Stays(w: int64, h: seq<Tick>, n: int, i: int)
    requires w > 0
  {
    && 0 <= i < |h| && n - 15 <= TruncDiv(h[i].ts, w) <= n
    && forall j :: i < j < |h| && Trades(h[j]) && TruncDiv(h[j].ts, w) % 16 == TruncDiv(h[i].ts, w) % 16 ==>
         TruncDiv(h[j].ts, w) == TruncDiv(h[i].ts, w)
  }

  ghost function StaySum(w: int64, h: seq<Tick>, f: Tick -> int, n: int): int
    requires w > 0
  {
    SumOver(h, f, i => Stays(w, h, n, i), |h|)
  }

  lemma {:induction false} StaysIsResident(w: int64, h: seq<Tick>, n: int, i: int)
    requires w > 0 && 0 <= i < |h| && n == Newest(w, h) && Trades(h[i])
    ensures Stays(w, h, n, i) <==> Resident(w, h, i) && InWindow(w, h, i)
  {
    hide TruncDiv, Newest;
    CountedIsVolume(h[i]);
    forall j | 0 <= j < |h|
      ensures Counted(h[j]) <==> Trades(h[j])
    {
      CountedIsVolume(h[j]);
    }
  }

  lemma {:induction false} StaySumIs(w: int64, h: seq<Tick>, f: Tick -> int, g: Tick -> int, n: int)
    requires w > 0 && n == Newest(w, h)
    requires forall t :: t in h && Trades(t) ==> f(t) == g(t)
    requires forall t :: t in h && !Trades(t) ==> g(t) == 0
    ensures SurvivingSum(w, h, f) == StaySum(w, h, g, n)
  {
    hide Trades, Stays, Newest;
    var k, k' := i => Resident(w, h, i) && InWindow(w, h, i), i => Stays(w, h, n, i);
    forall i | 0 <= i < |h|
      ensures k(i) ==> f(h[i]) == g(h[i])
      ensures k(i) == k'(i) || g(h[i]) == 0
    {
      CountedIsTrade(h[i]);
      if Trades(h[i]) {
        StaysIsResident(w, h, n, i);
      }
    }
    SameKept(h, f, g, k, |h|);
    SumKeepsZeros(h, g, k, k', |h|);
  }

  lemma {:induction false} CountedIsTrade(t: Tick)
    ensures Counted(t) <==> Trades(t)
  {
    CountedIsVolume(t);
  }

  /** The two readings for every history, on the ticks themselves: whatever is late, a trade is in
      the sums unless it left the window or a later trade took its place in the table. */
  lemma {:induction false} PlainSurvivors(w: int64, h: seq<Tick>, n: int)
    requires w > 0 && LatestEpoch(w, h, n)
    ensures SurvivingSum(w, h, Signed) == StaySum(w, h, Net(), n)
    ensures SurvivingSum(w, h, Volume) == StaySum(w, h, Gross(), n)
  {
    LatestIsNewest(w, h, n);
    StaySumIs(w, h, Signed, Net(), n);
    StaySumIs(w, h, Volume, Gross(), n);
  }

  lemma {:induction false} PlainReadings(w: int64, h: seq<Tick>)
    requires w > 0
    ensures forall n :: LatestEpoch(w, h, n) ==> SurvivingSum(w, h, Signed) == StaySum(w, h, Net(), n)
    ensures forall n :: LatestEpoch(w, h, n) ==> SurvivingSum(w, h, Volume) == StaySum(w, h, Gross(), n)
    ensures InTime(w, h) ==> forall n :: LatestEpoch(w, h, n) ==> SurvivingSum(w, h, Signed) == EpochSum(w, h, Net(), n)
    ensures InTime(w, h) ==> forall n :: LatestEpoch(w, h, n) ==> SurvivingSum(w, h, Volume) == EpochSum(w, h, Gross(), n)
  {
    hide LatestEpoch, SurvivingSum, StaySum, EpochSum;
    forall n | LatestEpoch(w, h, n)
      ensures SurvivingSum(w, h, Signed) == StaySum(w, h, Net(), n)
      ensures SurvivingSum(w, h, Volume) == StaySum(w, h, Gross(), n)
    {
      PlainSurvivors(w, h, n);
    }
    if InTime(w, h) {
      forall n | LatestEpoch(w, h, n)
        ensures SurvivingSum(w, h, Signed) == EpochSum(w, h, Net(), n)
        ensures SurvivingSum(w, h, Volume) == EpochSum(w, h, Gross(), n)
      {
        PlainWindow(w, h, n);
      }
    }
  }

  /** After one tick the readings are its own volume. */
  lemma {:induction false} OneTick(w: int64, t: Tick)
    requires w > 0 && t.ts >= 0
    ensures SurvivingSum(w, [t], Signed) == if t.side == Buy then t.size else if t.side == Sell then 0 - t.size else 0
    ensures SurvivingSum(w, [t], Volume) == if t.side == Buy || t.side == Sell then t.size else 0
  {
    var n := TruncDiv(t.ts, w);
    var k := if Trades(t) then n else 0;
    assert Trades([t][0]) <==> Trades(t);
    assert LatestEpoch(w, [t], k);
    assert InTime(w, [t]);
    PlainWindow(w, [t], k);
    OneTerm(t, Net(), i => 0 <= i < |[t]| && k - 15 <= TruncDiv([t][i].ts, w) <= k);
    OneTerm(t, Gross(), i => 0 <= i < |[t]| && k - 15 <= TruncDiv([t][i].ts, w) <= k);
  }

  lemma {:induction false} OneTerm(t: Tick, f: Tick -> int, k: int -> bool)
    ensures SumOver([t], f, k, 1) == if k(0) then f(t) else 0
  {
    assert SumOver([t], f, k, 0) == 0;
  }
}
