/** What the recycled buckets throw away, and the exact difference it makes to every reading. */
module OfiLosses {

  import opened Ticks
  import opened Sums
  import opened Ofi
  import opened OfiSliding

  /** The content of a bucket at the moment it is recycled. */
  datatype Wipe = Wipe(epoch: int, buys: int, sells: int)

  /** What a caller can read off the table before an update: the bucket it is about to recycle. */
  function Wiped(w: int64, tab: Table, t: Tick): seq<Wipe>
    requires w > 0 && |tab.buckets| == BUCKET_COUNT
  {
    var b := tab.buckets[SlotOf(Epoch(w, t))];
    if Counted(t) && b.epoch != Epoch(w, t) then [Wipe(b.epoch, b.buys, b.sells)] else []
  }

  /** Everything recycled over a history, oldest first. */
  function Log(w: int64, h: seq<Tick>): seq<Wipe>
    requires w > 0
  {
    if h == [] then []
    else
      var p := h[..|h| - 1];
      Log(w, p) + Wiped(w, After(w, p), h[|h| - 1])
  }

  predicate Within(epoch: int, newest: int) {
    newest - 15 <= epoch <= newest
  }

  /** What the log holds of the sixteen epochs up to `newest`. */
  function LostBuys(log: seq<Wipe>, newest: int): int {
    if log == [] then 0
    else
      var n := |log| - 1;
      LostBuys(log[..n], newest) + (if Within(log[n].epoch, newest) then log[n].buys else 0)
  }

  function LostSells(log: seq<Wipe>, newest: int): int {
    if log == [] then 0
    else
      var n := |log| - 1;
      LostSells(log[..n], newest) + (if Within(log[n].epoch, newest) then log[n].sells else 0)
  }

  // ----- The displaced ticks of any sixteen epochs -----

  ghost predicate Displaced(w: int64, h: seq<Tick>, i: int, newest: int)
    requires w > 0
  {
    0 <= i < |h| && Counted(h[i]) && !Resident(w, h, i) && Within(Epoch(w, h[i]), newest)
  }

  ghost function DisplacedSum(w: int64, h: seq<Tick>, f: Tick -> int, newest: int): int
    requires w > 0
  {
    SumOver(h, f, i => Displaced(w, h, i, newest), |h|)
  }

  /** One more tick displaces the residents of the bucket it recycles, and nothing else. */
  lemma {:induction false} DisplacedAppend(w: int64, h: seq<Tick>, t: Tick, newest: int, i: int)
    requires w > 0
    requires var tab := After(w, h); EpochsMean(w, h, tab.buckets)
    ensures var s := SlotOf(Epoch(w, t));
            var b := After(w, h).buckets[s];
            Displaced(w, h + [t], i, newest) <==>
              Displaced(w, h, i, newest)
              || (Wiped(w, After(w, h), t) != [] && Within(b.epoch, newest) && Resident(w, h, i) && SlotOf(Epoch(w, h[i])) == s)
    ensures Displaced(w, h, i, newest) ==> !Resident(w, h, i)
  {
    ResidentAppend(w, h, t, i);
    if 0 <= i < |h| {
      assert (h + [t])[i] == h[i];
    }
    assert (h + [t])[|h|] == t;
  }

  /** The sum over the ticks that an update displaces, of any sixteen epochs. */
  lemma {:induction false} DisplacedStep(w: int64, h: seq<Tick>, t: Tick, f: Tick -> int, newest: int)
    requires w > 0
    ensures var b := After(w, h).buckets[SlotOf(Epoch(w, t))];
            DisplacedSum(w, h + [t], f, newest) == DisplacedSum(w, h, f, newest)
              + (if Wiped(w, After(w, h), t) != [] && Within(b.epoch, newest) then SlotSum(w, h, f, SlotOf(Epoch(w, t))) else 0)
  {
    var h', n, s := h + [t], |h|, SlotOf(Epoch(w, t));
    var hit := Wiped(w, After(w, h), t) != [] && Within(After(w, h).buckets[s].epoch, newest);
    var k := i => Displaced(w, h, i, newest);
    var here := i => Resident(w, h, i) && SlotOf(Epoch(w, h[i])) == s;
    var k' := i => Displaced(w, h', i, newest);
    TableMeaning(w, h);
    forall i
      ensures k'(i) <==> k(i) || (hit && here(i))
      ensures !(k(i) && here(i))
    {
      DisplacedAppend(w, h, t, newest, i);
    }
    SumSame(h', h, f, k', k', n);
    if hit {
      SumDisjoint(h, f, k, here, k', n);
    } else {
      SumSame(h, h, f, k', k, n);
    }
  }

  lemma {:induction false} LostAppend(log: seq<Wipe>, more: seq<Wipe>, newest: int)
    requires |more| <= 1
    ensures LostBuys(log + more, newest)
         == LostBuys(log, newest) + (if more != [] && Within(more[0].epoch, newest) then more[0].buys else 0)
    ensures LostSells(log + more, newest)
         == LostSells(log, newest) + (if more != [] && Within(more[0].epoch, newest) then more[0].sells else 0)
  {
    if more == [] {
      assert log + more == log;
    } else {
      assert (log + more)[..|log|] == log && (log + more)[|log|] == more[0];
    }
  }

  lemma {:induction false} LogAppend(w: int64, h: seq<Tick>, t: Tick)
    requires w > 0
    ensures Log(w, h + [t]) == Log(w, h) + Wiped(w, After(w, h), t)
  {
    var h' := h + [t];
    assert h'[..|h'| - 1] == h && h'[|h'| - 1] == t;
  }

  lemma {:induction false} LogStep(w: int64, h: seq<Tick>, t: Tick, newest: int)
    requires w > 0
    requires DisplacedSum(w, h, BuyVolume, newest) == LostBuys(Log(w, h), newest)
    requires DisplacedSum(w, h, SellVolume, newest) == LostSells(Log(w, h), newest)
    ensures DisplacedSum(w, h + [t], BuyVolume, newest) == LostBuys(Log(w, h + [t]), newest)
    ensures DisplacedSum(w, h + [t], SellVolume, newest) == LostSells(Log(w, h + [t]), newest)
  {
    hide DisplacedSum, Log, SlotSum, EpochsMean;
    var s := SlotOf(Epoch(w, t));
    TableMeaning(w, h);
    assert SlotMeans(w, h, s, After(w, h).buckets[s]);
    DisplacedStep(w, h, t, BuyVolume, newest);
    DisplacedStep(w, h, t, SellVolume, newest);
    LogAppend(w, h, t);
    LostAppend(Log(w, h), Wiped(w, After(w, h), t), newest);
  }

  /** The log accounts for every displaced tick, whatever sixteen epochs one asks about. */
  lemma {:induction false} LogMeaning(w: int64, h: seq<Tick>, newest: int)
    requires w > 0
    ensures DisplacedSum(w, h, BuyVolume, newest) == LostBuys(Log(w, h), newest)
    ensures DisplacedSum(w, h, SellVolume, newest) == LostSells(Log(w, h), newest)
  {
    if h != [] {
      var p, t := h[..|h| - 1], h[|h| - 1];
      LogMeaning(w, p, newest);
      LogStep(w, p, t, newest);
      assert p + [t] == h;
    }
  }

  lemma {:induction false} WindowSplits(w: int64, h: seq<Tick>, f: Tick -> int)
    requires w > 0
    ensures WindowSum(w, h, f) == SurvivingSum(w, h, f) + DisplacedSum(w, h, f, Newest(w, h))
  {
    SumDisjoint(h, f, i => Resident(w, h, i) && InWindow(w, h, i), i => Displaced(w, h, i, Newest(w, h)),
                i => InWindow(w, h, i), |h|);
  }

  /** For every history, in any order: the sliding window of the documentation is what the table
      reads plus what was recycled out of the final sixteen epochs. */
  lemma {:induction false} Correction(w: int64, h: seq<Tick>)
    requires w > 0
    ensures var log, n, tab := Log(w, h), Newest(w, h), After(w, h);
            && WindowSum(w, h, BuyVolume) == WindowBuys(tab, 16) + LostBuys(log, n)
            && WindowSum(w, h, SellVolume) == WindowSells(tab, 16) + LostSells(log, n)
  {
    ReadingsAreSurvivors(w, h);
    LogMeaning(w, h, Newest(w, h));
    WindowSplits(w, h, BuyVolume);
    WindowSplits(w, h, SellVolume);
  }

  // ----- When a reading is right -----

  lemma {:induction false} LossAtLeast(w: int64, h: seq<Tick>, i: int)
    requires w > 0
    ensures InWindow(w, h, i) && !Resident(w, h, i) ==>
              DisplacedSum(w, h, BuyVolume, Newest(w, h)) + DisplacedSum(w, h, SellVolume, Newest(w, h)) > 0
  {
    hide Epoch, Newest;
    if InWindow(w, h, i) && !Resident(w, h, i) {
      var k := i => Displaced(w, h, i, Newest(w, h));
      SumMonotone(h, BuyVolume, k, k, |h|);
      SumMonotone(h, SellVolume, k, k, |h|);
      SumAtLeast(h, BuyVolume, k, |h|, i);
      SumAtLeast(h, SellVolume, k, |h|, i);
    }
  }

  lemma {:induction false} DisplacedNone(w: int64, h: seq<Tick>, f: Tick -> int)
    requires w > 0 && Exact(w, h)
    ensures DisplacedSum(w, h, f, Newest(w, h)) == 0
  {
    hide Epoch, Newest;
    SumNone(h, f, i => Displaced(w, h, i, Newest(w, h)), |h|);
  }

  lemma {:induction false} DisplacedPositive(w: int64, h: seq<Tick>, newest: int)
    requires w > 0
    ensures DisplacedSum(w, h, BuyVolume, newest) >= 0 && DisplacedSum(w, h, SellVolume, newest) >= 0
  {
    hide Displaced;
    var k := i => Displaced(w, h, i, newest);
    SumMonotone(h, BuyVolume, k, k, |h|);
    SumMonotone(h, SellVolume, k, k, |h|);
  }

  lemma {:induction false} Losses(w: int64, h: seq<Tick>)
    requires w > 0
    ensures LostBuys(Log(w, h), Newest(w, h)) >= 0 && LostSells(Log(w, h), Newest(w, h)) >= 0
    ensures Exact(w, h) <==> LostBuys(Log(w, h), Newest(w, h)) + LostSells(Log(w, h), Newest(w, h)) == 0
  {
    hide DisplacedSum, Log, Newest, InWindow, Resident;
    LogMeaning(w, h, Newest(w, h));
    DisplacedPositive(w, h, Newest(w, h));
    if Exact(w, h) {
      DisplacedNone(w, h, BuyVolume);
      DisplacedNone(w, h, SellVolume);
    } else {
      var i :| InWindow(w, h, i) && !Resident(w, h, i);
      LossAtLeast(w, h, i);
    }
  }

  lemma {:induction false} SignedWindow(w: int64, h: seq<Tick>)
    requires w > 0
    ensures WindowSum(w, h, Signed) == WindowSum(w, h, BuyVolume) - WindowSum(w, h, SellVolume)
  {
    assert forall t :: t in h ==> Signed(t) == BuyVolume(t) + (-1) * SellVolume(t);
    SumLinear(h, Signed, BuyVolume, SellVolume, -1, i => InWindow(w, h, i), |h|);
  }

  /** The imbalance is that of the sliding window exactly when as much was bought as sold in what
      the window lost. */
  lemma {:induction false} ImbalanceExact(w: int64, h: seq<Tick>)
    requires w > 0
    ensures var tab, log, n := After(w, h), Log(w, h), Newest(w, h);
            WindowBuys(tab, 16) - WindowSells(tab, 16) == WindowSum(w, h, Signed) <==> LostBuys(log, n) == LostSells(log, n)
  {
    Correction(w, h);
    SignedWindow(w, h);
  }

  /** The volume is that of the sliding window exactly when the window lost nothing, that is, when
      no tick of the window has been displaced; otherwise it is too small. */
  lemma {:induction false} VolumeExact(w: int64, h: seq<Tick>)
    requires w > 0
    ensures var tab, log, n := After(w, h), Log(w, h), Newest(w, h);
            var read, window := WindowBuys(tab, 16) + WindowSells(tab, 16), WindowSum(w, h, BuyVolume) + WindowSum(w, h, SellVolume);
            && read <= window
            && (read == window <==> Exact(w, h))
            && (read == window <==> LostBuys(log, n) + LostSells(log, n) == 0)
  {
    Correction(w, h);
    Losses(w, h);
  }

  /** A bucket that holds volume is not ahead of the newest epoch. */
  lemma {:induction false} BucketInPast(w: int64, h: seq<Tick>, s: nat)
    requires w > 0 && s < BUCKET_COUNT
    ensures var b := After(w, h).buckets[s];
            b.buys >= 0 && b.sells >= 0 && (b.buys + b.sells > 0 ==> b.epoch <= Newest(w, h))
  {
    var k := i => Resident(w, h, i) && SlotOf(Epoch(w, h[i])) == s;
    TableMeaning(w, h);
    assert SlotMeans(w, h, s, After(w, h).buckets[s]);
    SumMonotone(h, BuyVolume, k, k, |h|);
    SumMonotone(h, SellVolume, k, k, |h|);
    if SumOver(h, BuyVolume, k, |h|) > 0 {
      var i := PositiveSum(h, BuyVolume, k, |h|);
    } else if SumOver(h, SellVolume, k, |h|) > 0 {
      var i := PositiveSum(h, SellVolume, k, |h|);
    }
  }

  ghost predicate PastEntries(log: seq<Wipe>, newest: int) {
    forall k :: 0 <= k < |log| ==>
      log[k].buys >= 0 && log[k].sells >= 0 && (log[k].buys + log[k].sells > 0 ==> log[k].epoch <= newest)
  }

  lemma {:induction false} EntriesAppend(log: seq<Wipe>, more: seq<Wipe>, newest: int, later: int)
    requires PastEntries(log, newest) && PastEntries(more, newest) && newest <= later
    ensures PastEntries(log + more, later)
  {
  }

  lemma {:induction false} WipedInPast(w: int64, h: seq<Tick>, t: Tick)
    requires w > 0
    ensures PastEntries(Wiped(w, After(w, h), t), Newest(w, h)) && Newest(w, h) <= Newest(w, h + [t])
  {
    hide Epoch;
    BucketInPast(w, h, SlotOf(Epoch(w, t)));
    NewestAppend(w, h, t);
  }

  lemma {:induction false} LogEntries(w: int64, h: seq<Tick>)
    requires w > 0
    ensures PastEntries(Log(w, h), Newest(w, h))
  {
    if h != [] {
      hide PastEntries, Newest, Wiped;
      var p, t := h[..|h| - 1], h[|h| - 1];
      LogEntries(w, p);
      WipedInPast(w, p, t);
      EntriesAppend(Log(w, p), Wiped(w, After(w, p), t), Newest(w, p), Newest(w, p + [t]));
      LogAppend(w, p, t);
      assert p + [t] == h;
    }
  }

  /** Every recycled bucket that held volume has left the window of `newest`. */
  ghost predicate AllGone(log: seq<Wipe>, newest: int) {
    forall k :: 0 <= k < |log| && log[k].buys + log[k].sells > 0 ==> log[k].epoch <= newest - 16
  }

  lemma {:induction false} NothingLost(log: seq<Wipe>, newest: int)
    requires PastEntries(log, newest)
    ensures LostBuys(log, newest) >= 0 && LostSells(log, newest) >= 0
    ensures LostBuys(log, newest) + LostSells(log, newest) == 0 <==> AllGone(log, newest)
  {
    if log != [] {
      var n := |log| - 1;
      NothingLost(log[..n], newest);
      assert log == log[..n] + [log[n]];
    }
  }

  /** Exactness over all histories, and when it returns after a loss: as soon as the newest epoch
      is sixteen past every recycled bucket that held volume. */
  lemma {:induction false} ExactAgain(w: int64, h: seq<Tick>)
    requires w > 0
    ensures Exact(w, h) <==> AllGone(Log(w, h), Newest(w, h))
  {
    Losses(w, h);
    LogEntries(w, h);
    NothingLost(Log(w, h), Newest(w, h));
  }

  /** From an exact state, the imbalance after one more tick is that of the window unless the tick
      evicts a live bucket that holds more of one side than of the other. */
  lemma {:induction false} ImbalanceStep(w: int64, h: seq<Tick>, t: Tick)
    requires w > 0 && Exact(w, h)
    ensures var tab, tab' := After(w, h), After(w, h + [t]);
            var b := tab.buckets[SlotOf(Epoch(w, t))];
            (WindowBuys(tab', 16) - WindowSells(tab', 16) == WindowSum(w, h + [t], Signed)
             <==> !Evicts(w, tab, t) || b.buys == b.sells)
  {
    var h' := h + [t];
    ExactStep(w, h, t);
    ImbalanceExact(w, h');
    if Evicts(w, After(w, h), t) {
      TableMeaning(w, h);
      Losses(w, h);
      NewestAppend(w, h, t);
      LogAppend(w, h, t);
      LostAppend(Log(w, h), Wiped(w, After(w, h), t), Newest(w, h));
    } else {
      Losses(w, h');
    }
  }

  ghost predicate ExactThroughout(w: int64, h: seq<Tick>)
    requires w > 0
  {
    forall n :: 0 <= n <= |h| ==> Exact(w, h[..n])
  }

  /** The n-th update evicts a live bucket. */
  ghost predicate EvictsAt(w: int64, h: seq<Tick>, n: int)
    requires w > 0 && 0 <= n < |h|
  {
    Evicts(w, After(w, h[..n]), h[n])
  }

  ghost predicate NeverEvicts(w: int64, h: seq<Tick>)
    requires w > 0
  {
    forall n :: 0 <= n < |h| ==> !EvictsAt(w, h, n)
  }

  lemma {:induction false} ExactNext(w: int64, h: seq<Tick>, n: nat)
    requires w > 0 && n < |h| && Exact(w, h[..n])
    ensures Exact(w, h[..n + 1]) <==> !EvictsAt(w, h, n)
  {
    hide Exact, Evicts;
    assert h[..n + 1] == h[..n] + [h[n]];
    ExactStep(w, h[..n], h[n]);
  }

  lemma {:induction false} ExactPrefix(w: int64, h: seq<Tick>, n: nat)
    requires w > 0 && NeverEvicts(w, h) && n <= |h|
    ensures Exact(w, h[..n])
  {
    hide EvictsAt, Epoch;
    if n > 0 {
      ExactPrefix(w, h, n - 1);
      ExactNext(w, h, n - 1);
    }
  }

  /** Over whole runs: the table is the sliding window after every update if and only if no update
      evicts a live bucket. */
  lemma {:induction false} ExactRuns(w: int64, h: seq<Tick>)
    requires w > 0
    ensures ExactThroughout(w, h) <==> NeverEvicts(w, h)
  {
    hide Exact, EvictsAt;
    if ExactThroughout(w, h) {
      forall n | 0 <= n < |h|
        ensures !EvictsAt(w, h, n)
      {
        assert Exact(w, h[..n]) && Exact(w, h[..n + 1]);
        ExactNext(w, h, n);
      }
    }
    if NeverEvicts(w, h) {
      forall n | 0 <= n <= |h|
        ensures Exact(w, h[..n])
      {
        ExactPrefix(w, h, n);
      }
    }
  }
}
