/** The order-flow kernel as it runs: a fixed array of buckets updated in place. */
module OfiWindow {

  import opened Division
  import opened Ticks
  import opened Sums
  import opened Ofi
  import opened OfiSliding
  import opened OfiPlain

  class Window {
    const width: int64
    const buckets: array<Bucket>
    var newest: int
    ghost var history: seq<Tick>

    ghost predicate Valid()
      reads this, buckets
    {
      && width > 0 && buckets.Length == BUCKET_COUNT
      && Table(buckets[..], newest) == After(width, history)
    }

    constructor (bucketWidth: int64)
      ensures Valid() && fresh(buckets) && history == []
      ensures width == if bucketWidth > 0 then bucketWidth else 1
    {
      width := if bucketWidth > 0 then bucketWidth else 1;
      buckets := new Bucket[BUCKET_COUNT](_ => Bucket(0, 0, 0));
      newest := 0;
      history := [];
    }

    method Update(t: Tick)
      requires Valid()
      modifies this`newest, this`history, buckets
      ensures Valid() && history == old(history) + [t]
    {
      ghost var tab := Table(buckets[..], newest);
      history := history + [t];
      assert history[..|history| - 1] == old(history);
      if t.size == 0 || t.side == Unknown {
        return;
      }
      var epoch := TruncDiv(t.ts, width);
      var slot := SlotOf(epoch);
      if buckets[slot].epoch != epoch {
        buckets[slot] := Bucket(epoch, 0, 0);
      }
      if t.side == Buy {
        buckets[slot] := buckets[slot].(buys := buckets[slot].buys + t.size);
      } else {
        buckets[slot] := buckets[slot].(sells := buckets[slot].sells + t.size);
      }
      if epoch > newest {
        newest := epoch;
      }
      assert buckets[..] == tab.buckets[slot := AddTo(Recycle(tab.buckets[slot], epoch), t)];
    }

    /** Buys minus sells over the final window: for every history, over its surviving ticks;
        after arrivals in time, over all ticks of the sixteen epochs up to the newest trade. */
    method Value() returns (v: int)
      requires Valid()
      ensures v == SurvivingSum(width, history, Signed)
      ensures Timely(width, history) ==> v == WindowSum(width, history, Signed)
      ensures forall n :: LatestEpoch(width, history, n) ==> v == StaySum(width, history, Net(), n)
      ensures InTime(width, history) ==> forall n :: LatestEpoch(width, history, n) ==> v == EpochSum(width, history, Net(), n)
    {
      var buys, sells := 0, 0;
      ghost var tab := After(width, history);
      var oldest := newest - BUCKET_COUNT + 1;
      for s := 0 to BUCKET_COUNT
        invariant buys == WindowBuys(tab, s) && sells == WindowSells(tab, s)
      {
        var b := buckets[s];
        if b.epoch >= oldest && b.epoch <= newest {
          buys := buys + b.buys;
          sells := sells + b.sells;
        }
      }
      v := buys - sells;
      ReadingsAreSurvivors(width, history);
      if Timely(width, history) {
        SlidingWindow(width, history);
      }
      PlainReadings(width, history);
    }

    method TotalVolume() returns (v: int)
      requires Valid()
      ensures v == SurvivingSum(width, history, Volume)
      ensures Timely(width, history) ==> v == WindowSum(width, history, Volume)
      ensures forall n :: LatestEpoch(width, history, n) ==> v == StaySum(width, history, Gross(), n)
      ensures InTime(width, history) ==> forall n :: LatestEpoch(width, history, n) ==> v == EpochSum(width, history, Gross(), n)
    {
      v := 0;
      ghost var tab := After(width, history);
      var oldest := newest - BUCKET_COUNT + 1;
      for s := 0 to BUCKET_COUNT
        invariant v == WindowBuys(tab, s) + WindowSells(tab, s)
      {
        var b := buckets[s];
        if b.epoch >= oldest && b.epoch <= newest {
          v := v + (b.buys + b.sells);
        }
      }
      ReadingsAreSurvivors(width, history);
      VolumeSplits(width, history);
      if Timely(width, history) {
        TimelyIsExact(width, history);
        ExactSums(width, history, Volume);
      }
      PlainReadings(width, history);
    }
  }

  /** A counted tick is a purchase or a sale. */
  lemma {:induction false} VolumeSplits(w: int64, h: seq<Tick>)
    requires w > 0
    ensures SurvivingSum(w, h, Volume) == SurvivingSum(w, h, BuyVolume) + SurvivingSum(w, h, SellVolume)
  {
    SidesOfKept(h, i => Resident(w, h, i) && InWindow(w, h, i), |h|);
  }

  lemma {:induction false} SidesOfKept(h: seq<Tick>, k: int -> bool, n: nat)
    requires n <= |h|
    requires forall i :: 0 <= i < n && k(i) ==> Counted(h[i])
    ensures SumOver(h, Volume, k, n) == SumOver(h, BuyVolume, k, n) + SumOver(h, SellVolume, k, n)
  {
    if n > 0 {
      SidesOfKept(h, k, n - 1);
    }
  }
}
