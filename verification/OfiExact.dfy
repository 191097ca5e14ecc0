/** The kernel stores its volumes in binary64. As long as at most 2^21 ticks are resident,
    every number it forms is an integer that binary64 represents, so rounding never acts. */
module OfiExact {

  import opened Ticks
  import opened Sums
  import opened Ofi
  import opened OfiWindow

  const EXACT: int := 0x20_0000_0000_0000  // 2^53
  const MAX_RESIDENT: int := 0x20_0000     // 2^21

  /** Rounding to binary64 is the identity on integers of magnitude up to 2^53 (section 3.6 of
      IEEE 754-2019); beyond, nothing is assumed of it. */
  ghost predicate Binary64(rnd: int -> int) {
    forall x :: -EXACT <= x <= EXACT ==> rnd(x) == x
  }

  function RoundedAdd(b: Bucket, t: Tick, rnd: int -> int): Bucket {
    if t.side == Buy then b.(buys := rnd(b.buys + t.size)) else b.(sells := rnd(b.sells + t.size))
  }

  function RoundedUpdate(w: int64, tab: Table, t: Tick, rnd: int -> int): (tab': Table)
    requires w > 0 && |tab.buckets| == BUCKET_COUNT
    ensures |tab'.buckets| == BUCKET_COUNT
  {
    if !Counted(t) then tab
    else
      var e := Epoch(w, t);
      var s := SlotOf(e);
      Table(tab.buckets[s := RoundedAdd(Recycle(tab.buckets[s], e), t, rnd)],
            if e > tab.newest then e else tab.newest)
  }

  function RoundedAfter(w: int64, h: seq<Tick>, rnd: int -> int): (tab: Table)
    requires w > 0
    ensures |tab.buckets| == BUCKET_COUNT
  {
    if h == [] then EmptyTable() else RoundedUpdate(w, RoundedAfter(w, h[..|h| - 1], rnd), h[|h| - 1], rnd)
  }

  function RoundedBuys(tab: Table, s: nat, rnd: int -> int): int
    requires s <= |tab.buckets|
  {
    if s == 0 then 0
    else if Active(tab, tab.buckets[s - 1].epoch) then rnd(RoundedBuys(tab, s - 1, rnd) + tab.buckets[s - 1].buys)
    else RoundedBuys(tab, s - 1, rnd)
  }

  function RoundedSells(tab: Table, s: nat, rnd: int -> int): int
    requires s <= |tab.buckets|
  {
    if s == 0 then 0
    else if Active(tab, tab.buckets[s - 1].epoch) then rnd(RoundedSells(tab, s - 1, rnd) + tab.buckets[s - 1].sells)
    else RoundedSells(tab, s - 1, rnd)
  }

  function RoundedTotal(tab: Table, s: nat, rnd: int -> int): int
    requires s <= |tab.buckets|
  {
    if s == 0 then 0
    else if Active(tab, tab.buckets[s - 1].epoch) then
      rnd(RoundedTotal(tab, s - 1, rnd) + rnd(tab.buckets[s - 1].buys + tab.buckets[s - 1].sells))
    else RoundedTotal(tab, s - 1, rnd)
  }

  ghost function ResidentCount(w: int64, h: seq<Tick>): int
    requires w > 0
  {
    SumOver(h, _ => 1, i => Resident(w, h, i), |h|)
  }

  ghost function ResidentVolume(w: int64, h: seq<Tick>): int
    requires w > 0
  {
    SumOver(h, Volume, i => Resident(w, h, i), |h|)
  }

  lemma {:induction false} ResidentVolumeFits(w: int64, h: seq<Tick>)
    requires w > 0 && ResidentCount(w, h) <= MAX_RESIDENT
    ensures 0 <= ResidentVolume(w, h) <= EXACT
  {
    var k := i => Resident(w, h, i);
    SumBounded(h, Volume, k, |h|, 0xFFFF_FFFF);
    SumMonotone(h, Volume, k, k, |h|);
    SumSameTerms(h, (_: Tick) => 1, k, i => Resident(w, h, i), |h|);
    assert 0xFFFF_FFFF * ResidentCount(w, h) <= 0xFFFF_FFFF * MAX_RESIDENT;
  }

  lemma {:induction false} SumSameTerms(h: seq<Tick>, f: Tick -> int, k: int -> bool, k': int -> bool, n: nat)
    requires n <= |h| && forall i :: 0 <= i < n ==> k(i) == k'(i)
    ensures SumOver(h, f, k, n) == SumOver(h, f, k', n)
  {
    SumSame(h, h, f, k, k', n);
  }

  /** The buckets below `s` that a reading has visited hold no more than all residents. */
  lemma {:induction false} ReadingFits(w: int64, h: seq<Tick>, s: nat)
    requires w > 0 && s <= BUCKET_COUNT
    ensures var tab := After(w, h);
            && 0 <= WindowBuys(tab, s) && 0 <= WindowSells(tab, s)
            && WindowBuys(tab, s) + WindowSells(tab, s) <= ResidentVolume(w, h)
  {
    var k := i => Resident(w, h, i) && InWindow(w, h, i) && SlotOf(Epoch(w, h[i])) < s;
    TableMeaning(w, h);
    ActiveBuys(w, h, After(w, h), s);
    ActiveSells(w, h, After(w, h), s);
    SumMonotone(h, BuyVolume, k, k, |h|);
    SumMonotone(h, SellVolume, k, k, |h|);
    SidesOfKept(h, k, |h|);
    SumMonotone(h, Volume, k, i => Resident(w, h, i), |h|);
  }

  lemma {:induction false} BucketFits(w: int64, h: seq<Tick>, s: nat)
    requires w > 0 && s < BUCKET_COUNT
    ensures var b := After(w, h).buckets[s]; 0 <= b.buys && 0 <= b.sells && b.buys + b.sells <= ResidentVolume(w, h)
  {
    var k := i => Resident(w, h, i) && SlotOf(Epoch(w, h[i])) == s;
    TableMeaning(w, h);
    assert SlotMeans(w, h, s, After(w, h).buckets[s]);
    SumMonotone(h, BuyVolume, k, k, |h|);
    SumMonotone(h, SellVolume, k, k, |h|);
    SidesOfKept(h, k, |h|);
    SumMonotone(h, Volume, k, i => Resident(w, h, i), |h|);
  }

  /** What rounding preserves of a bucket: always its epoch, and its volumes as long as they are
      within 2^53 together. */
  ghost predicate Agree(r: Bucket, a: Bucket) {
    && a.buys >= 0 && a.sells >= 0 && r.epoch == a.epoch
    && (a.buys + a.sells <= EXACT ==> r == a)
  }

  lemma {:induction false} AddAgrees(r: Bucket, a: Bucket, epoch: int, t: Tick, rnd: int -> int)
    requires Agree(r, a) && Binary64(rnd)
    ensures Agree(RoundedAdd(Recycle(r, epoch), t, rnd), AddTo(Recycle(a, epoch), t))
  {
  }

  ghost predicate TablesAgree(r: Table, a: Table)
    requires |r.buckets| == |a.buckets| == BUCKET_COUNT
  {
    r.newest == a.newest && forall s :: 0 <= s < BUCKET_COUNT ==> Agree(r.buckets[s], a.buckets[s])
  }

  /** For every history: whatever overflowed earlier, a bucket is exact again once it is recycled. */
  lemma {:induction false} BucketsAgree(w: int64, h: seq<Tick>, rnd: int -> int)
    requires w > 0 && Binary64(rnd)
    ensures TablesAgree(RoundedAfter(w, h, rnd), After(w, h))
  {
    if h != [] {
      var p, t := h[..|h| - 1], h[|h| - 1];
      BucketsAgree(w, p, rnd);
      var r, a, s := RoundedAfter(w, p, rnd), After(w, p), SlotOf(Epoch(w, t));
      AddAgrees(r.buckets[s], a.buckets[s], Epoch(w, t), t, rnd);
    }
  }

  /** With at most 2^21 ticks resident now, every bucket is exact, however many were resident before. */
  lemma {:induction false} UpdatesExact(w: int64, h: seq<Tick>, rnd: int -> int)
    requires w > 0 && Binary64(rnd) && ResidentCount(w, h) <= MAX_RESIDENT
    ensures RoundedAfter(w, h, rnd) == After(w, h)
  {
    var r, a := RoundedAfter(w, h, rnd), After(w, h);
    BucketsAgree(w, h, rnd);
    ResidentVolumeFits(w, h);
    forall s | 0 <= s < BUCKET_COUNT
      ensures r.buckets[s] == a.buckets[s]
    {
      BucketFits(w, h, s);
      assert Agree(r.buckets[s], a.buckets[s]);
    }
    assert r.buckets == a.buckets;
  }

  lemma {:induction false} ReadingsExact(w: int64, h: seq<Tick>, rnd: int -> int, s: nat)
    requires w > 0 && Binary64(rnd) && ResidentCount(w, h) <= MAX_RESIDENT && s <= BUCKET_COUNT
    ensures RoundedBuys(After(w, h), s, rnd) == WindowBuys(After(w, h), s)
    ensures RoundedSells(After(w, h), s, rnd) == WindowSells(After(w, h), s)
    ensures RoundedTotal(After(w, h), s, rnd) == WindowBuys(After(w, h), s) + WindowSells(After(w, h), s)
  {
    if s > 0 {
      ReadingsExact(w, h, rnd, s - 1);
      ResidentVolumeFits(w, h);
      ReadingFits(w, h, s);
      BucketFits(w, h, s - 1);
    }
  }

  /** The binary64 kernel computes what the integer kernel computes, in every bucket and in
      both readings, whenever at most 2^21 ticks are resident. */
  lemma {:induction false} KernelIsExact(w: int64, h: seq<Tick>, rnd: int -> int)
    requires w > 0 && Binary64(rnd) && ResidentCount(w, h) <= MAX_RESIDENT
    ensures var tab := RoundedAfter(w, h, rnd);
            && tab == After(w, h)
            && rnd(RoundedBuys(tab, 16, rnd) - RoundedSells(tab, 16, rnd)) == SurvivingSum(w, h, Signed)
            && RoundedTotal(tab, 16, rnd) == SurvivingSum(w, h, Volume)
  {
    UpdatesExact(w, h, rnd);
    ReadingsExact(w, h, rnd, 16);
    ReadingsAreSurvivors(w, h);
    VolumeSplits(w, h);
    ResidentVolumeFits(w, h);
    ReadingFits(w, h, 16);
  }

  /** The imbalance never exceeds the volume; what is missing is twice the lighter side. */
  lemma {:induction false} VolumeExceedsImbalance(w: int64, h: seq<Tick>)
    requires w > 0
    ensures var buys, sells, v := SurvivingSum(w, h, BuyVolume), SurvivingSum(w, h, SellVolume), SurvivingSum(w, h, Signed);
            && 0 <= buys && 0 <= sells
            && SurvivingSum(w, h, Volume) - (if v < 0 then -v else v) == 2 * (if buys < sells then buys else sells)
  {
    ReadingsAreSurvivors(w, h);
    VolumeSplits(w, h);
    ReadingFits(w, h, 16);
  }
}
