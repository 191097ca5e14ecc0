/** Order flow imbalance over sixteen recycled time buckets: what the table computes on every
    tick history, and when that is a sliding window. */
module Ofi {

  import opened Bits
  import opened Division
  import opened Ticks
  import opened Sums

  const BUCKET_COUNT: nat := 16

  datatype Bucket = Bucket(epoch: int, buys: int, sells: int)

  datatype Table = Table(buckets: seq<Bucket>, newest: int)

  function Epoch(w: int64, t: Tick): int
    requires w > 0
  {
    TruncDiv(t.ts, w)
  }

  /** The cast to std::size_t wraps a negative epoch modulo 2^64 before the remainder. */
  function SlotOf(epoch: int): (s: nat)
    ensures s < BUCKET_COUNT
    ensures s == epoch % 16
  {
    WrapThenMod(epoch, 4);
    assert Pow2(4) == 16;
    (epoch % WORD) % BUCKET_COUNT
  }

  function EmptyTable(): (tab: Table)
    ensures |tab.buckets| == BUCKET_COUNT
  {
    Table(seq(BUCKET_COUNT, _ => Bucket(0, 0, 0)), 0)
  }

  function Recycle(b: Bucket, epoch: int): Bucket {
    if b.epoch != epoch then Bucket(epoch, 0, 0) else b
  }

  function AddTo(b: Bucket, t: Tick): Bucket {
    if t.side == Buy then b.(buys := b.buys + t.size) else b.(sells := b.sells + t.size)
  }

  function Update(w: int64, tab: Table, t: Tick): (tab': Table)
    requires w > 0 && |tab.buckets| == BUCKET_COUNT
    ensures |tab'.buckets| == BUCKET_COUNT
  {
    if !Counted(t) then tab
    else
      var e := Epoch(w, t);
      var s := SlotOf(e);
      Table(tab.buckets[s := AddTo(Recycle(tab.buckets[s], e), t)],
            if e > tab.newest then e else tab.newest)
  }

  /** The table after a whole history. */
  function After(w: int64, h: seq<Tick>): (tab: Table)
    requires w > 0
    ensures |tab.buckets| == BUCKET_COUNT
  {
    if h == [] then EmptyTable() else Update(w, After(w, h[..|h| - 1]), h[|h| - 1])
  }

  predicate Active(tab: Table, epoch: int) {
    tab.newest - BUCKET_COUNT + 1 <= epoch <= tab.newest
  }

  // ----- The meaning of the table, on the history alone -----

  /** A later counted tick took the slot of tick `i` for another epoch. */
  ghost predicate Recycled(w: int64, h: seq<Tick>, i: int)
    requires w > 0 && 0 <= i < |h|
  {
    exists j :: i < j < |h| && Counted(h[j]) && SlotOf(Epoch(w, h[j])) == SlotOf(Epoch(w, h[i])) && Epoch(w, h[j]) != Epoch(w, h[i])
  }

  ghost predicate Resident(w: int64, h: seq<Tick>, i: int)
    requires w > 0
  {
    0 <= i < |h| && Counted(h[i]) && !Recycled(w, h, i)
  }

  /** The largest counted epoch, and at least zero. */
  ghost function Newest(w: int64, h: seq<Tick>): (n: int)
    requires w > 0
    ensures n >= 0
    ensures forall i :: 0 <= i < |h| && Counted(h[i]) ==> Epoch(w, h[i]) <= n
    ensures n == 0 || exists i :: 0 <= i < |h| && Counted(h[i]) && Epoch(w, h[i]) == n
  {
    if h == [] then 0
    else
      var p, t := h[..|h| - 1], h[|h| - 1];
      var n := Newest(w, p);
      assert forall i :: 0 <= i < |p| ==> p[i] == h[i];
      if Counted(t) && Epoch(w, t) > n then Epoch(w, t) else n
  }

  ghost predicate InWindow(w: int64, h: seq<Tick>, i: int)
    requires w > 0
  {
    0 <= i < |h| && Counted(h[i]) && Newest(w, h) - 15 <= Epoch(w, h[i]) <= Newest(w, h)
  }

  /** The sum of `f` over the ticks of the final window that no later tick displaced. */
  ghost function SurvivingSum(w: int64, h: seq<Tick>, f: Tick -> int): int
    requires w > 0
  {
    SumOver(h, f, i => Resident(w, h, i) && InWindow(w, h, i), |h|)
  }

  /** The sum of `f` over all ticks of the final window: the sliding window itself. */
  ghost function WindowSum(w: int64, h: seq<Tick>, f: Tick -> int): int
    requires w > 0
  {
    SumOver(h, f, i => InWindow(w, h, i), |h|)
  }

  ghost function SlotSum(w: int64, h: seq<Tick>, f: Tick -> int, s: nat): int
    requires w > 0
  {
    SumOver(h, f, i => Resident(w, h, i) && SlotOf(Epoch(w, h[i])) == s, |h|)
  }

  // ----- The table holds what the history says -----

  ghost predicate EpochsMean(w: int64, h: seq<Tick>, buckets: seq<Bucket>)
    requires w > 0 && |buckets| == BUCKET_COUNT
  {
    forall i :: Resident(w, h, i) ==> buckets[SlotOf(Epoch(w, h[i]))].epoch == Epoch(w, h[i])
  }

  ghost predicate SlotMeans(w: int64, h: seq<Tick>, s: nat, b: Bucket)
    requires w > 0
  {
    b.buys == SlotSum(w, h, BuyVolume, s) && b.sells == SlotSum(w, h, SellVolume, s)
  }

  ghost predicate Means(w: int64, h: seq<Tick>, tab: Table)
    requires w > 0
  {
    && |tab.buckets| == BUCKET_COUNT
    && tab.newest == Newest(w, h)
    && EpochsMean(w, h, tab.buckets)
    && forall s: nat :: s < BUCKET_COUNT ==> SlotMeans(w, h, s, tab.buckets[s])
  }

  /** One more tick displaces exactly the residents of its slot that have another epoch. */
  lemma {:induction false} ResidentAppend(w: int64, h: seq<Tick>, t: Tick, i: int)
    requires w > 0
    ensures 0 <= i < |h| ==>
              (Resident(w, h + [t], i) <==> Resident(w, h, i) && !(Counted(t) && SlotOf(Epoch(w, t)) == SlotOf(Epoch(w, h[i])) && Epoch(w, t) != Epoch(w, h[i])))
    ensures i == |h| ==> (Resident(w, h + [t], i) <==> Counted(t))
  {
    var h' := h + [t];
    if 0 <= i < |h| {
      assert h'[i] == h[i];
      if Recycled(w, h, i) {
        var j :| i < j < |h| && Counted(h[j]) && SlotOf(Epoch(w, h[j])) == SlotOf(Epoch(w, h[i])) && Epoch(w, h[j]) != Epoch(w, h[i]);
        assert h'[j] == h[j];
      }
      if Recycled(w, h', i) {
        var j :| i < j < |h'| && Counted(h'[j]) && SlotOf(Epoch(w, h'[j])) == SlotOf(Epoch(w, h'[i])) && Epoch(w, h'[j]) != Epoch(w, h'[i]);
        assert j < |h| ==> h[j] == h'[j];
      }
      assert h'[|h|] == t;
    }
  }

  /** The slot sum after one more counted tick, from the slot's epoch before it. */
  lemma {:induction false} SlotSumAppend(w: int64, h: seq<Tick>, t: Tick, f: Tick -> int, s: nat, epoch: int)
    requires w > 0
    requires forall i :: Resident(w, h, i) && SlotOf(Epoch(w, h[i])) == s ==> Epoch(w, h[i]) == epoch
    ensures SlotSum(w, h + [t], f, s) ==
            if !Counted(t) || SlotOf(Epoch(w, t)) != s then SlotSum(w, h, f, s)
            else (if epoch == Epoch(w, t) then SlotSum(w, h, f, s) else 0) + f(t)
  {
    var h' := h + [t];
    var n := |h|;
    var k := i => Resident(w, h, i) && SlotOf(Epoch(w, h[i])) == s;
    var k' := i => Resident(w, h', i) && SlotOf(Epoch(w, h'[i])) == s;
    forall i | 0 <= i < n
      ensures h[i] == h'[i]
      ensures k'(i) == (k(i) && (Counted(t) && SlotOf(Epoch(w, t)) == s ==> Epoch(w, t) == epoch))
    {
      ResidentAppend(w, h, t, i);
    }
    ResidentAppend(w, h, t, n);
    if Counted(t) && SlotOf(Epoch(w, t)) == s && epoch != Epoch(w, t) {
      SumNone(h', f, k', n);
    } else {
      SumSame(h, h', f, k, k', n);
    }
    assert h'[n] == t;
  }

  lemma {:induction false} NewestStep(w: int64, h: seq<Tick>, tab: Table, t: Tick)
    requires w > 0 && |tab.buckets| == BUCKET_COUNT
    ensures tab.newest == Newest(w, h) ==> Update(w, tab, t).newest == Newest(w, h + [t])
  {
    hide TruncDiv;
    var h' := h + [t];
    assert h'[..|h'| - 1] == h && h'[|h'| - 1] == t;
  }

  lemma {:induction false} UpdatedBucket(w: int64, tab: Table, t: Tick, s: nat)
    requires w > 0 && |tab.buckets| == BUCKET_COUNT && s < BUCKET_COUNT
    ensures Update(w, tab, t).buckets[s] ==
            if Counted(t) && SlotOf(Epoch(w, t)) == s then AddTo(Recycle(tab.buckets[s], Epoch(w, t)), t) else tab.buckets[s]
  {
  }

  lemma {:induction false} EpochsStep(w: int64, h: seq<Tick>, tab: Table, t: Tick)
    requires w > 0 && |tab.buckets| == BUCKET_COUNT && EpochsMean(w, h, tab.buckets)
    ensures EpochsMean(w, h + [t], Update(w, tab, t).buckets)
  {
    var h', tab' := h + [t], Update(w, tab, t);
    forall i | Resident(w, h', i)
      ensures tab'.buckets[SlotOf(Epoch(w, h'[i]))].epoch == Epoch(w, h'[i])
    {
      ResidentAppend(w, h, t, i);
      UpdatedBucket(w, tab, t, SlotOf(Epoch(w, h'[i])));
      assert i < |h| ==> h'[i] == h[i];
    }
  }

  lemma {:induction false} SlotStep(w: int64, h: seq<Tick>, tab: Table, t: Tick, s: nat)
    requires w > 0 && |tab.buckets| == BUCKET_COUNT && EpochsMean(w, h, tab.buckets)
    requires s < BUCKET_COUNT && SlotMeans(w, h, s, tab.buckets[s])
    ensures SlotMeans(w, h + [t], s, Update(w, tab, t).buckets[s])
  {
    SlotSumAppend(w, h, t, BuyVolume, s, tab.buckets[s].epoch);
    SlotSumAppend(w, h, t, SellVolume, s, tab.buckets[s].epoch);
    UpdatedBucket(w, tab, t, s);
  }

  lemma {:induction false} UpdateKeepsMeaning(w: int64, h: seq<Tick>, tab: Table, t: Tick)
    requires w > 0 && Means(w, h, tab)
    ensures Means(w, h + [t], Update(w, tab, t))
  {
    NewestStep(w, h, tab, t);
    EpochsStep(w, h, tab, t);
    forall s: nat | s < BUCKET_COUNT
      ensures SlotMeans(w, h + [t], s, Update(w, tab, t).buckets[s])
    {
      SlotStep(w, h, tab, t, s);
    }
  }

  lemma {:induction false} TableMeaning(w: int64, h: seq<Tick>)
    requires w > 0
    ensures Means(w, h, After(w, h))
  {
    if h != [] {
      var p := h[..|h| - 1];
      TableMeaning(w, p);
      UpdateKeepsMeaning(w, p, After(w, p), h[|h| - 1]);
      assert p + [h[|h| - 1]] == h;
    }
  }

  // ----- Reading the table -----

  function WindowBuys(tab: Table, s: nat): int
    requires s <= |tab.buckets|
  {
    if s == 0 then 0
    else WindowBuys(tab, s - 1) + (if Active(tab, tab.buckets[s - 1].epoch) then tab.buckets[s - 1].buys else 0)
  }

  function WindowSells(tab: Table, s: nat): int
    requires s <= |tab.buckets|
  {
    if s == 0 then 0
    else WindowSells(tab, s - 1) + (if Active(tab, tab.buckets[s - 1].epoch) then tab.buckets[s - 1].sells else 0)
  }

  ghost function SumBelow(w: int64, h: seq<Tick>, f: Tick -> int, s: nat): int
    requires w > 0
  {
    SumOver(h, f, i => Resident(w, h, i) && InWindow(w, h, i) && SlotOf(Epoch(w, h[i])) < s, |h|)
  }

  lemma {:induction false} BelowNone(w: int64, h: seq<Tick>, f: Tick -> int)
    requires w > 0
    ensures SumBelow(w, h, f, 0) == 0
  {
    SumNone(h, f, i => Resident(w, h, i) && InWindow(w, h, i) && SlotOf(Epoch(w, h[i])) < 0, |h|);
  }

  lemma {:induction false} BelowAll(w: int64, h: seq<Tick>, f: Tick -> int)
    requires w > 0
    ensures SumBelow(w, h, f, BUCKET_COUNT) == SurvivingSum(w, h, f)
  {
    var k := i => Resident(w, h, i) && InWindow(w, h, i);
    var k16 := i => Resident(w, h, i) && InWindow(w, h, i) && SlotOf(Epoch(w, h[i])) < BUCKET_COUNT;
    SumSame(h, h, f, k16, k, |h|);
  }

  lemma {:induction false} OneBucket(w: int64, h: seq<Tick>, tab: Table, s: nat, f: Tick -> int)
    requires w > 0 && |tab.buckets| == BUCKET_COUNT && s < BUCKET_COUNT
    ensures tab.newest == Newest(w, h) && EpochsMean(w, h, tab.buckets) ==>
              SumBelow(w, h, f, s + 1)
                == SumBelow(w, h, f, s) + (if Active(tab, tab.buckets[s].epoch) then SlotSum(w, h, f, s) else 0)
  {
    hide Epoch, SlotOf, Newest, Recycled;
    if tab.newest == Newest(w, h) && EpochsMean(w, h, tab.buckets) {
      var below := i => Resident(w, h, i) && InWindow(w, h, i) && SlotOf(Epoch(w, h[i])) < s;
      var here := i => Resident(w, h, i) && SlotOf(Epoch(w, h[i])) == s;
      var upTo := i => Resident(w, h, i) && InWindow(w, h, i) && SlotOf(Epoch(w, h[i])) < s + 1;
      if Active(tab, tab.buckets[s].epoch) {
        SumDisjoint(h, f, below, here, upTo, |h|);
      } else {
        SumSame(h, h, f, upTo, below, |h|);
      }
    }
  }

  /** The active buckets below `s` hold the surviving window ticks of those slots. */
  lemma {:induction false} ActiveBuys(w: int64, h: seq<Tick>, tab: Table, s: nat)
    requires w > 0 && Means(w, h, tab) && s <= BUCKET_COUNT
    ensures WindowBuys(tab, s) == SumBelow(w, h, BuyVolume, s)
  {
    hide SumBelow, SlotSum, EpochsMean;
    if s == 0 {
      BelowNone(w, h, BuyVolume);
    } else {
      ActiveBuys(w, h, tab, s - 1);
      assert SlotMeans(w, h, s - 1, tab.buckets[s - 1]);
      OneBucket(w, h, tab, s - 1, BuyVolume);
    }
  }

  lemma {:induction false} ActiveSells(w: int64, h: seq<Tick>, tab: Table, s: nat)
    requires w > 0 && Means(w, h, tab) && s <= BUCKET_COUNT
    ensures WindowSells(tab, s) == SumBelow(w, h, SellVolume, s)
  {
    hide SumBelow, SlotSum, EpochsMean;
    if s == 0 {
      BelowNone(w, h, SellVolume);
    } else {
      ActiveSells(w, h, tab, s - 1);
      assert SlotMeans(w, h, s - 1, tab.buckets[s - 1]);
      OneBucket(w, h, tab, s - 1, SellVolume);
    }
  }

  /** Unconditionally, for every history in any order, the two readings are the signed and the
      unsigned sums over exactly the surviving ticks of the final window. */
  lemma {:induction false} ReadingsAreSurvivors(w: int64, h: seq<Tick>)
    requires w > 0
    ensures WindowBuys(After(w, h), BUCKET_COUNT) == SurvivingSum(w, h, BuyVolume)
    ensures WindowSells(After(w, h), BUCKET_COUNT) == SurvivingSum(w, h, SellVolume)
    ensures WindowBuys(After(w, h), BUCKET_COUNT) - WindowSells(After(w, h), BUCKET_COUNT) == SurvivingSum(w, h, Signed)
  {
    var tab := After(w, h);
    TableMeaning(w, h);
    ActiveBuys(w, h, tab, BUCKET_COUNT);
    ActiveSells(w, h, tab, BUCKET_COUNT);
    BelowAll(w, h, BuyVolume);
    BelowAll(w, h, SellVolume);
    var k := i => Resident(w, h, i) && InWindow(w, h, i);
    assert forall t :: t in h ==> Signed(t) == BuyVolume(t) + (-1) * SellVolume(t);
    SumLinear(h, Signed, BuyVolume, SellVolume, -1, k, |h|);
  }
}
