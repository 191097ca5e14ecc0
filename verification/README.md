# Verification of the streaming pipeline

A Dafny model of the stateful parts of the pipeline, and proofs of what they keep. Ticks arrive
on a WebSocket thread, cross a lock-free single-producer single-consumer ring, feed two O(1)
kernels (order flow imbalance over sixteen recycled time buckets, realized volatility over a
circular array of log returns), and leave as 80-byte frames. Around that stand the frame codec,
the WebSocket URL parser, the purged cross-validation splitter, the dashboard's live lists and
timestamp arithmetic, and the evaluation's roll-up and regression detector.

`dafny verify dfyconfig.toml` checks everything.

## How it is laid out

| files | what they hold |
|---|---|
| `RingView`, `SpscRing`, `RingProtocol`, `RingRuns`, `RingStaleness` | the ring as a view on a buffer; as an array-backed class; as a step machine of two threads with stale acquire loads and vector clocks; what its steps and runs keep; what stale loads do to its answers |
| `Ofi`, `OfiSliding`, `OfiLosses`, `OfiExact`, `OfiPlain`, `OfiWindow` | the bucket table against the tick history; when it is a sliding window; what recycling loses and when each reading is right; binary64 exactness; the readings in the ticks' own fields; the class |
| `Circular`, `RealizedVol`, `VolWindow` | the circular array, the deviation, the class |
| `Engine`, `EngineConsumer`, `EngineProtocol` | frames against naive features; the consumer as a class; both threads with counters and shutdown |
| `Sorting`, `Feed` | the stable sort; the live lists |
| `KFold`, `Rounding` | the splitter; Python's `round` |
| `Clamped`, `Timeline`, `Replay` | clamped deltas; the receipt timeline; the replay |
| `Bytes`, `FrameCodec`, `FrameLayout`, `Messages` | little-endian records; the frame codec of both languages; what stands at which offset; engine frames as the reader sees them |
| `WsUrl` | the URL parser and printer |
| `EvalSummary`, `Regressions` | the evaluation's columns; the regression detector |
| `Bits`, `Division`, `Reals`, `Sums`, `Ticks`, `Wrappers` | shared arithmetic, sums and data |

Code that updates fields or arrays is a class or a loop here as well, proved against a function
of the whole history; the theorems are then about that function. In the ring protocol an acquire
load may return any store of the other thread's index that is not older than the one returned
last, and joins the vector clock that the store released.

What a body and its specification both build on (which ticks count, the divisor of the variance, the
order of the fields, the embargo's length, the span of the agent nodes) is fixed by theorems that do
not mention it: `OfiPlain.PlainSurvivors`, `RealizedVol.VarianceOfSums`, `Messages.MessageBytes`,
`KFold.SplitMeaning`, `Replay.ReplayMeaning`, `Timeline.StagesMeaning`, `WsUrl.AcceptedForms`,
`EvalSummary.SummaryColumns`, `Regressions.VersionFallsInOrder`.

## Where the code and its documentation differ

The model follows the code in each case.

- `README.md:181` and `README.md:214` speak of a 64-byte frame; `src/feature_frame.hpp:57` and
  `services/classifier/feature_frame.py:36` fix 80 bytes.
- `src/features.hpp:33-34` says that old ticks fall off by themselves. A tick sixteen or more
  buckets late takes the slot of a live bucket and wipes it (`OfiSliding.LateTickWipesWindow`).
  `OfiLosses` says what every reading then misses, and exactly when each reading is right, in
  terms of the buckets a caller can see before each update.
- `src/engine.cpp:77-80` says that engines launched at different times do not trivially collide.
  The first id keeps the high half of a nanosecond clock, so engines launched in the same period
  of 2^32 ns (about 4.3 s) share every id, and others share ids once one of them has built enough
  frames to reach the other's first id (`Engine.PeriodsDecide`, `Engine.IdsDisjoint`).
- `services/classifier/model.py:3-8` promises to remove every training sample whose label
  overlaps the fold. The code drops a run after the fold only; the sample just before a fold is
  always trained on (`KFold.NoPurgeBefore`). `KFold.LeakFreeExactly` says which folds are free of
  leaks for a given label horizon, and `KFold.SplitLeakFree` that no embargo makes all of them so.
- `web/lib/replay.ts:86-90` says the stream is empty when both the wire stamp and all agent data
  are missing; it is empty whenever the wire stamp is. Without a score stamp the agent nodes are
  spread from the wire on and can precede the compute event (`Replay.MissingScoreTurnsBack`).
- `web/components/score-feed.tsx:35` merges by id, but a response that itself repeats an id can
  show it twice (`Feed.RepeatedIdShownTwice`); exactly when is `Feed.ShownUnique`.
- `web/app/eval/eval-board.tsx:97-101` compares the two newest runs. Of runs made in the same
  millisecond the first to arrive counts as the newer, so the report can depend on the order of
  the runs (`Regressions.TiesFollowArrival`); exactly when is `Regressions.OrderFreeExactly`.
- `src/ring_buffer.hpp:36-49` equates a refused push with a full ring and a failed pop with an
  empty one. With an acquire load that returns an older store neither need hold
  (`RingStaleness.RefusedNeverFull`, `RingStaleness.NothingThoughBuffered`).

## Model

| member | source | states |
|---|---|---|
| Bits.PowerOfTwoTest | src/ring_buffer.hpp:22-23 | the bit test of the static assertion accepts exactly the powers of two |
| Bits.MaskIsMod | src/ring_buffer.hpp:30 | for such a capacity, masking with capacity - 1 is the remainder |
| RingView.MaskAdvances | src/ring_buffer.hpp:40 | `(i + 1) & mask` is the next index, wrapping at the end |
| SpscRing.Ring.constructor | src/ring_buffer.hpp:32 | a new ring of any accepted capacity is empty |
| SpscRing.Ring.TryPush | src/ring_buffer.hpp:38-47 | refuses exactly when capacity - 1 elements are buffered and then changes nothing; otherwise appends the value |
| SpscRing.Ring.TryPop | src/ring_buffer.hpp:50-58 | fails exactly when empty, leaving the caller's variable alone; otherwise removes and returns the oldest element |
| SpscRing.Ring.SizeApprox | src/ring_buffer.hpp:62-66 | exact when nothing moves between its two loads, although the difference may wrap |
| RingProtocol.StepInv | src/ring_buffer.hpp:38-58 | every atomic step of either thread, with any admissible stale load, keeps the inductive invariant |
| RingRuns.StepRefinesQueue | src/ring_buffer.hpp:38-58 | refinement: each step is a step of a queue bounded by capacity - 1, and only the two index stores change it |
| RingRuns.RefusalIsFull | src/ring_buffer.hpp:41-43 | a push is refused exactly when the pushes made exceed the pops its load observed by capacity - 1; with a current load, exactly when the ring is full |
| RingRuns.NothingIsEmpty | src/ring_buffer.hpp:52-54 | a pop finds nothing exactly when the pops made equal the pushes its load observed; with a current load, exactly when the ring is empty |
| RingStaleness.RefusedNeverFull | src/ring_buffer.hpp:41-43 | at every capacity of three and more, a run that never holds more than capacity - 2 elements leads to a refused push |
| RingStaleness.NothingThoughBuffered | src/ring_buffer.hpp:52-54 | at every capacity, a run leads to a pop that finds nothing while an element pushed before it began is buffered |
| RingRuns.NoDataRace | src/ring_buffer.hpp:44-56 | slot accesses are ordered by happens-before after all conflicting ones, and the two threads never hold the same slot |
| RingRuns.RunKeepsQueue | src/ring_buffer.hpp:38-58 | over any run from any reachable state, contents plus accepted values equal delivered values plus contents |
| RingRuns.FifoOverEveryRun | src/ring_buffer.hpp:38-58 | from the empty ring, in every interleaving: accepted = delivered ++ buffered, the length bound, and no race |
| RingRuns.NeverBlocked | src/ring_buffer.hpp:5-6 | a call in progress always has an enabled step of its own |
| RingRuns.CallsEnd | src/ring_buffer.hpp:5-6 | bounded waiting: in any run a thread takes at most four more own steps before its call has ended |
| Division.TruncDivMeaning | src/features.cpp:24 | the epoch is the quotient truncated toward zero, also for negative timestamps |
| Ticks.CountedIsVolume | src/features.cpp:18-40 | a tick counts exactly when its bought plus sold volume is positive, and then carries its size once |
| OfiWindow.Window.constructor | src/features.cpp:14-15 | the table of the empty history; a non-positive width becomes one |
| OfiWindow.Window.Update | src/features.cpp:17-45 | the in-place update yields the table of the history extended by the tick |
| Ofi.TableMeaning | src/features.cpp:17-45 | for every history in any order, each bucket sums exactly the ticks of its slot that no later tick of another epoch displaced |
| Ofi.ReadingsAreSurvivors | src/features.cpp:47-69 | unconditionally, the readings are sums over exactly the window's ticks that no later tick of another epoch displaced |
| OfiPlain.PlainSurvivors | src/features.cpp:17-69 | every history, in the ticks' fields: bought minus sold, and bought plus sold, over the ticks of the last sixteen epochs that no later trade a multiple of sixteen epochs away displaced |
| OfiPlain.PlainWindow | src/features.cpp:17-69 | with trades in time, the same over all ticks of the sixteen epochs up to the newest trade |
| OfiPlain.OneTick | src/features.cpp:17-69 | after one tick the readings are its own signed and unsigned size |
| OfiWindow.Window.Value | src/features.cpp:47-58 | the loop returns bought minus sold over the undisplaced ticks of the last sixteen epochs, said in the ticks' own fields; after arrivals in time, over all ticks of those epochs |
| OfiWindow.Window.TotalVolume | src/features.cpp:60-69 | the same for bought plus sold |
| OfiSliding.ExactStep | src/features.cpp:24-33 | from a state in which no window tick is displaced, an update keeps it so if and only if it does not evict a live bucket from a full window behind |
| OfiLosses.Correction | src/features.cpp:24-69 | for every history, the documented window sums are the readings plus what was recycled out of the final sixteen epochs |
| OfiLosses.ImbalanceExact | src/features.cpp:47-58 | the imbalance is the window's if and only if the window lost as much bought as sold volume |
| OfiLosses.VolumeExact | src/features.cpp:60-69 | the volume is the window's if and only if no window tick is displaced, and otherwise too small |
| OfiLosses.ImbalanceStep | src/features.cpp:24-58 | from an exact state, the imbalance after one more tick is the window's unless the tick evicts a live bucket whose sides differ |
| OfiLosses.ExactRuns | src/features.cpp:17-45 | the table is the sliding window after every update of a run if and only if no update evicts a live bucket |
| OfiLosses.ExactAgain | src/features.cpp:17-45 | over all histories: exact if and only if the newest epoch is sixteen past every recycled bucket that held volume |
| OfiSliding.TimelyIsExact | src/features.cpp:24-58 | if every tick is less than sixteen epochs behind the newest before it, no window tick is displaced |
| OfiSliding.SlidingWindow | src/features.cpp:24-69 | then both readings equal the naive sums over the whole history restricted to the window |
| OfiSliding.WindowInTime | src/features.hpp:27-34 | the window in nanoseconds: everything at most fifteen widths old, nothing sixteen or more widths old |
| OfiSliding.LateTickWipesWindow | src/features.cpp:29-33 | an input on which the reading is not the documented window |
| OfiExact.BucketsAgree | src/features.cpp:28-40 | for every history, a rounded bucket has the integer bucket's epoch, and its volumes while those are within 2^53 together; what overflowed is forgotten when the bucket is recycled |
| OfiExact.UpdatesExact | src/features.cpp:35-40 | with at most 2^21 ticks resident now, however many were before, the rounded table is exact in every bucket |
| OfiExact.ReadingsExact | src/features.cpp:48-68 | with at most 2^21 resident ticks, so is every partial sum of both readings |
| OfiExact.KernelIsExact | src/features.cpp:35-68 | with at most 2^21 ticks resident now, the binary64 kernel computes what the integer kernel computes |
| OfiExact.VolumeExceedsImbalance | src/features.cpp:47-69 | total volume minus the size of the imbalance is twice the lighter side |
| Circular.Push | src/features.cpp:90-94 | storing one more item keeps the array a rotation of the last `capacity` items |
| RealizedVol.ArrayMeaning | src/features.cpp:78-95 | after any price stream the array is a rotation of the last returns of its positive prices |
| RealizedVol.PositiveIsFilter | src/features.cpp:79-81 | a price is kept exactly when it is above zero, in order |
| RealizedVol.WindowEntries | src/features.cpp:82-94 | the window's length, and each entry as the logarithm of a price over the one before it |
| RealizedVol.ArrayVolatility | src/features.cpp:97-116 | what the two passes read off the rotated array is the volatility of the window in order, and the count its length |
| RealizedVol.TwoPassIsOnePass | src/features.cpp:102-112 | the two-pass deviation equals the sum of squares minus n times the squared mean |
| RealizedVol.VarianceOfSums | src/features.cpp:102-115 | for n returns, the variance is (n * sum of squares - square of the sum) / (n * (n - 1)) |
| RealizedVol.VarianceOfTwo | src/features.cpp:102-115 | of two returns, half the square of their difference |
| RealizedVol.VarianceZero | src/features.cpp:108-115 | the sample variance is never negative, and zero exactly when all returns are equal |
| RealizedVol.WindowTelescopes | src/features.cpp:87-94 | the window's returns sum to log(last price) - log(the window's first price) |
| VolWindow.Window.constructor | src/features.cpp:75-76 | no samples or more than 128 become 128 |
| VolWindow.Window.Update | src/features.cpp:78-95 | the in-place update yields the state of the price history extended by the price |
| VolWindow.Window.SumPass | src/features.cpp:102-105 | the first loop computes the sum of the stored returns |
| VolWindow.Window.DeviationPass | src/features.cpp:108-112 | the second loop computes the sum of squared distances |
| VolWindow.Window.Value | src/features.cpp:97-116 | zero below two returns, otherwise the root of (n * sum of squares - square of the sum) / (n * (n - 1)) over the window |
| VolWindow.Window.Count | src/features.hpp:81-83 | the number of returns in the window |
| EngineConsumer.FeatureConsumer.Build | src/engine.cpp:101-118 | the frame built from the kernels is the naive frame of everything consumed, with the clock's reading |
| EngineConsumer.FeatureConsumer.OnTick | src/engine.cpp:197-230 | one iteration builds a frame exactly when the interval is complete, and it is the naive frame |
| Engine.FrameIsNaive | src/engine.cpp:101-118 | a frame carries the imbalance, volume, volatility, count, symbol and stamps computed naively from the history, and the clock's reading |
| Engine.FramesDetermined | src/engine.cpp:211-213 | the k-th frame is the naive frame of the first (k + 1) intervals |
| Engine.FrameCount | src/engine.cpp:194-212 | the number of frames is ticks / interval, and the pacing counter never overflows |
| Engine.TimelyFrame | src/engine.cpp:101-118 | with timely ticks the order-flow fields are plain sliding-window sums |
| Engine.FirstIdMeaning | src/engine.cpp:81-83 | frame 0 carries the multiple of 2^32 ns at or just before the start |
| Engine.CaseIdsDistinct | src/engine.cpp:85-87 | one engine repeats an id only after 2^64 frames |
| Engine.EnginesCollide | src/engine.cpp:77-87 | exactly when the i-th id of one engine is the j-th of another, for all i and j |
| Engine.IdsDisjoint | src/engine.cpp:77-87 | the first m ids of one engine and the first n of another have none in common exactly when neither reaches the other's first id |
| Engine.PeriodsDecide | src/engine.cpp:77-83 | engines of different periods have their first 2^32 ids to themselves; engines of one period share every id |
| EngineProtocol.StepInv | src/engine.cpp:157-239 | every step of the engine keeps: accepted = processed ++ in hand ++ in the ring, and the counters |
| EngineProtocol.TicksConserved | src/engine.cpp:157-205 | in every reachable state the counters balance up to counts not yet made; popped never exceeds pushed + 1 |
| EngineProtocol.JoinedCounters | src/engine.cpp:267-275 | after both joins shutdown was raised, parsed = pushed + dropped, and pushed = popped + left in the ring |
| EngineProtocol.FramesAreDeterministic | src/engine.cpp:189-239 | in every run the k-th frame is the naive one on the first accepted ticks, and the count is processed / interval |
| EngineProtocol.EmittedExactly | src/engine.cpp:211-230 | in every run the emitted counter is the number of loop bodies that complete an interval and whose frame the broker takes |
| EngineProtocol.RunsAgree | src/engine.cpp:189-239 | two runs that accepted the same first (k + 1) intervals of ticks agree on the k-th frame up to its compute stamp, whatever their clocks and interleavings |
| Messages.MessageIsNaive | src/engine.cpp:211-219 | end to end: the reader decodes the k-th message of any run to the naive frame of the first (k + 1) intervals of accepted ticks |
| Messages.MessageBytes | src/engine.cpp:101-118 | end to end, by byte offset: which feature of which accepted ticks stands where in the k-th message of any run, with the defaults of the configuration |
| Sorting.SortMeaning | web/components/score-feed.tsx:38 | the comparator's sort: the same elements, in descending order |
| Sorting.SortStable | web/components/score-feed.tsx:38 | elements with equal keys keep their order |
| Sorting.RankSort | web/components/score-feed.tsx:38 | the sort puts each element after all larger ones and the equal ones that stood before it |
| Feed.MergeKeepsTop | web/components/score-feed.tsx:34-40 | a poll of any rows into any list keeps covering everything received, also when evicted rows return; the list shows the top rows exactly when it shows no id twice |
| Feed.UnseenLaw | web/components/score-feed.tsx:36 | a row of the response is taken, in order, exactly when no row shown has its id |
| Feed.MergePlaces | web/components/score-feed.tsx:37-39 | each row lands behind those with larger keys and the equal ones before it, new rows before those shown; beyond the capacity it is dropped |
| Feed.SessionTopExactly | web/components/score-feed.tsx:30-43 | after any session of any responses that brought rows, the feed shows the top rows ever received exactly when it shows no id twice then, whatever it showed before |
| Feed.SessionShowsTop | web/components/score-feed.tsx:30-43 | in particular when each response repeats no id: the top `capacity` rows ever received, sorted, each id once |
| Feed.TopRowsDetermined | web/components/score-feed.tsx:38-39 | the keys shown are determined by what was received; with distinct keys, so are the rows |
| Feed.PollOrderIrrelevant | web/components/score-feed.tsx:30-43 | sessions that received the same rows and show no id twice show the same keys |
| Feed.MergedUnique | web/components/score-feed.tsx:36-37 | the merged list, before the cut, repeats no id if and only if the unseen part of the response repeats none |
| Feed.ShownUnique | web/components/score-feed.tsx:36-39 | whatever was shown before, the displayed list repeats no id if and only if of any two merged rows with one id one ranks beyond the cut |
| Feed.CleanResponse | web/components/score-feed.tsx:31-39 | unseen rows without repeats are displayed without repeats at every capacity; repeats are displayed when everything fits |
| Feed.RepeatedIdShownTwice | web/components/score-feed.tsx:36-37 | a response that repeats an id and is shown in full shows it twice |
| Feed.ScoreFeed.OnData | web/components/score-feed.tsx:30-43 | any response leaves the feed covering everything received; after a non-empty one it shows the top rows exactly when all repeats of an id fall beyond the cut |
| Feed.ReportInspector.OnData | web/components/report-inspector.tsx:35-48 | the same for the report rows; the selection is set by the first rows and then kept |
| Feed.ReportInspector.Selected | web/components/report-inspector.tsx:52 | the first shown row with the selected id, otherwise the first row shown |
| KFold.ClearSlice | services/classifier/model.py:76-78 | the slice assignment clears exactly the positions of the clipped slice |
| KFold.PurgedKFold | services/classifier/model.py:50-80 | the loop over the mask yields the specified folds, or the two argument errors; the embargo is a whole number nearest to the rounded product, even on a tie, and each fold trains on exactly the samples outside its run and that many after it |
| KFold.FoldsPartition | services/classifier/model.py:67-74 | the validation folds laid end to end are 0 .. n in order |
| KFold.OneHome | services/classifier/model.py:71-74 | every sample is validated in exactly one fold |
| KFold.TrainMembership | services/classifier/model.py:75-79 | a training set is exactly the complement of the fold and the embargo run after it |
| KFold.Separation | services/classifier/model.py:57-61 | no training sample lies within the embargo after a validation sample |
| KFold.NoPurgeBefore | services/classifier/model.py:75-79 | the sample just before a fold is always trained on |
| KFold.LeakFreeExactly | services/classifier/model.py:75-79 | exactly when no training sample lies within a label horizon of a fold's validation samples |
| KFold.SplitLeakFree | services/classifier/model.py:67-79 | all folds are free of leaks only for horizon zero or when one fold holds all samples |
| KFold.TrainedOn | services/classifier/model.py:71-80 | for every embargo: a sample is trained on in all folds but its own and the earlier ones from the first whose embargo reaches it |
| KFold.ShortEmbargo | services/classifier/model.py:71-80 | with embargo at most a fold, that is at most one earlier fold, the one before its own |
| KFold.SizesAddUp | services/classifier/model.py:71-80 | the training sizes sum to (splits - 1) n minus the clipped embargo lengths |
| Rounding.NearestEven | services/classifier/model.py:68 | Python's round: a nearest integer, even on ties |
| Clamped.ForwardAtLeastDistance | web/lib/timeline.ts:51-53 | clamped steps sum to at least the clamped distance, with equality exactly when the stamps never turn around |
| Timeline.ComputeTimeline | web/lib/timeline.ts:62-83 | each captured stage shows the time since the wire stage, if that was captured, and since the captured stage before it; the total is that of the last captured stage; complete when none is missing |
| Timeline.DeltasAccount | web/lib/timeline.ts:67-81 | for any captured subset the deltas sum to the net time plus all backward movement, and to the total iff the stamps never turn around |
| Timeline.LastOffsetIsTotal | web/lib/timeline.ts:74-81 | the last captured offset is the total |
| Replay.BuildReplay | web/lib/replay.ts:91-221 | the whole stream in the row's fields: the captured stages, then one node per rationale, the last at the enforcement, else the verdict, else the score, else the wire, those before it dividing the span; offsets and clamped deltas; nothing without the wire stamp |
| Replay.LastNodeLands | web/lib/replay.ts:155-162 | the last agent node lands exactly on the end of the span |
| Replay.NodeIsInterpolated | web/lib/replay.ts:157-202 | every node stands at its interpolated time, also the one node of a single-node span and the enforcement |
| Replay.EvenGaps | web/lib/replay.ts:157-162 | consecutive nodes are the floor or the ceiling of span / nodes apart |
| Replay.StreamForward | web/lib/replay.ts:102-211 | the stream is non-decreasing if and only if the row runs forward |
| Replay.OrderedRowRunsForward | web/lib/replay.ts:140-145 | with the score stamp, ordered stamps make the row run forward |
| Replay.MissingScoreTurnsBack | web/lib/replay.ts:143 | without the score stamp ordered stamps can still give a stream that turns back |
| Replay.ForwardReplay | web/lib/replay.ts:213-220 | a forward row has non-decreasing offsets, and deltas that sum to the last offset |
| Replay.ReplayAccount | web/lib/replay.ts:213-220 | in general the deltas exceed the net time by what the stamps run backward |
| Replay.DeltasSumExactly | web/lib/replay.ts:213-220 | for every row the deltas sum to at least the last offset, and to exactly it if and only if the stamps never turn around |
| Bytes.UnpackPack | services/classifier/feature_frame.py:36 | unpacking what was packed returns the values, for every layout of integers and characters |
| Bytes.PackUnpack | services/classifier/feature_frame.py:36 | packing what was unpacked returns the bytes |
| Bytes.ByteIsDigit | services/classifier/feature_frame.py:36 | byte i of a field is digit i of its value in base 256 |
| FrameCodec.DecodeOfEncoded | services/classifier/feature_frame.py:56-106 | which frames the writer accepts, and what the reader makes of what it wrote |
| FrameCodec.FrameRoundTrip | services/classifier/feature_frame.py:56-106 | an encodable frame is read back unchanged iff its symbol has at most eight characters and does not end in NUL |
| FrameCodec.BytesRoundTrip | services/classifier/feature_frame.py:56-106 | re-encoding a decoded payload zeroes bytes 2 and 3 and nothing else, or fails exactly on a symbol field that is not ASCII |
| FrameCodec.PayloadIsRecord | src/feature_frame.hpp:26-54 | every 80-byte payload is the memory image of one record, and the reader returns its fields |
| FrameCodec.ReadsEngineRecord | src/feature_frame.hpp:40-67 | reading what the engine wrote recovers every field; the symbol is the ticker's first eight bytes without trailing NULs |
| FrameLayout.ReaderFields | services/classifier/feature_frame.py:56-87 | exactly the payloads of 80 bytes are read, and each field is read from its own offset; how symbol bytes become characters |
| FrameLayout.WriterFields | services/classifier/feature_frame.py:89-106 | a symbol that is not ASCII is refused first, then a number out of its field's range; otherwise each number stands at its offset, the padding is zero and the symbol is cut or filled to eight bytes |
| FrameLayout.RecordFields | src/feature_frame.hpp:26-54 | what stands at each offset of the engine's record |
| FrameCodec.SerializeFrame | src/feature_frame.hpp:65-67 | the copy writes the record's 80 bytes and nothing beyond |
| FrameCodec.CopySymbol | src/tick_parser.cpp:34-38 | byte j of the field is byte j of the ticker, or NUL beyond its end |
| WsUrl.WsTarget.ParseInto | src/ws_client.cpp:32-57 | accepts exactly the parsed URLs; without a scheme nothing is written, otherwise the fields hold the parts of the URL, also when it is refused for an empty host or port |
| WsUrl.AcceptedExactly | src/ws_client.cpp:32-57 | a URL gives a target exactly when it is one of its spellings: default port and path "/" may be left out |
| WsUrl.AcceptedForms | src/ws_client.cpp:32-57 | which URLs give which target, in literal forms: 443 may be left out with TLS, 80 without, and the path "/" |
| WsUrl.ParseInvertsPrint | src/ws_client.cpp:32-57 | parsing inverts printing exactly on the printable targets |
| WsUrl.ReparseIsFixed | src/ws_client.cpp:32-57 | printing an accepted URL's target and parsing it again changes nothing |
| EvalSummary.IndexIsRounded | services/agents/eval/runner.py:87-91 | for percentages the clamp never acts: the index is the half-even rounded rank |
| EvalSummary.OrderStatistic | services/agents/eval/runner.py:85-91 | the percentile is a latency with at least k + 1 latencies at most it and at least n - k at least it |
| EvalSummary.PercentilesOrdered | services/agents/eval/runner.py:87-98 | a higher percentage never gives a smaller value; p50 <= p95 |
| EvalSummary.PercentileOrderFree | services/agents/eval/runner.py:85-91 | percentiles do not depend on the order of the case results |
| EvalSummary.MeanInRange | services/agents/eval/runner.py:94-96 | a mean is missing exactly when every sample is, and otherwise between any bounds of the samples present |
| EvalSummary.SummaryColumns | services/agents/eval/runner.py:71-99 | which field feeds which column: the three means, and the latencies of rank nearest to 0.5 (n - 1) and 0.95 (n - 1), even on a tie |
| EvalSummary.SummaryOrderFree | services/agents/eval/runner.py:71-99 | no column of the summary depends on the order of the case results |
| EvalSummary.SummaryRanges | services/agents/eval/runner.py:71-99 | correctness is a fraction; both latencies are missing together or in order |
| Regressions.DetectRegressions | web/app/eval/eval-board.tsx:88-113 | the grouping and comparing loops compute the report |
| Regressions.ReportExact | web/app/eval/eval-board.tsx:88-113 | sound and complete for all runs: reported iff the newest run fell by at least 5% from the newest of the others, of ties the first to arrive, both scores there and the earlier positive |
| Regressions.VersionFallsInOrder | web/app/eval/eval-board.tsx:97-111 | the whole report of a version: the three scores in order, each reported when it fell to at most 0.95 of a positive one |
| Regressions.ReportInOrder | web/app/eval/eval-board.tsx:88-113 | versions are reported in the order in which they are first seen |
| Regressions.ReportByTime | web/app/eval/eval-board.tsx:88-113 | the same by time alone when no two runs of a version share a creation time |
| Regressions.OrderFreeExactly | web/app/eval/eval-board.tsx:88-113 | the order of the runs does not matter if and only if all comparisons that ties leave open come to the same |
| Regressions.TieMustNotFall | web/app/eval/eval-board.tsx:97-107 | so a tie for the newest run is harmless only if nothing fell between the tied runs |
| Regressions.ReportOrderFree | web/app/eval/eval-board.tsx:88-113 | with distinct times the order of the runs does not matter |
| Regressions.ReportUnrepeated | web/app/eval/eval-board.tsx:95-111 | whatever the runs, no metric of a version is reported twice |
| Regressions.TiesFollowArrival | web/app/eval/eval-board.tsx:97-101 | two tied runs between which a metric fell are reported in one order and not in the other |

## Left out

- Kafka, WebSocket and TLS input and output, JSON parsing, LightGBM, Qdrant, Postgres, Airflow: a
  parsed tick, a broker's answer and a poll's response are arbitrary inputs.
- The reporter thread, signal delivery and throughput; the shutdown flag is an arbitrary step, and
  the consumer may see it late. Clock readings are arbitrary values.
- The agent graph, prompts, rendering, formatting and deployment files.
- `parse_side` and `as_feature_vector`: a case analysis and a list of fields.
- Telemetry counters are unbounded integers; they are atomic, so one step each.
- RingRuns.FifoOverEveryRun: a slot access is one step; copying the element byte by byte is
  covered by `NoDataRace`, which shows that no other access overlaps it. Capacities are any size
  of at least two, not only powers of two.
- SpscRing.Ring.SizeApprox: no bound is stated for calls between whose two loads the ring moves;
  the difference can then wrap.
- Prices, returns and volatility are real numbers, and log and sqrt are any functions with
  log(a / b) = log a - log b where that is used: rounding, NaN and infinity are not modelled.
- OfiExact.KernelIsExact: rounding is assumed to be the identity on integers up to 2^53 and
  nothing else; while more than 2^21 ticks are resident only `BucketsAgree` speaks.
- Feed.SessionTopExactly: a row with a given id never changes; `Number(ts_ns)`, which rounds large
  stamps, is inside `key`.
- KFold.PurgedKFold: the binary64 rounding of `embargo_pct * n` is any function that stays between
  0 and n; the generator's laziness is not modelled, nor a negative number of samples.
- Replay.BuildReplay: payloads and labels are left out, and `BigInt` parsing of the stamps.
- Timeline.ComputeTimeline: stage labels and the parsing of stamps.
- FrameCodec.FrameRoundTrip: binary64 fields travel as bit patterns; Python's conversion between
  them and floats is not modelled.
- Messages.MessageIsNaive: the encoding of a feature as a bit pattern is any function of its exact
  value.
- WsUrl.AcceptedExactly: characters stand for bytes; IPv6 literals and a query without a path are
  read as the code reads them, not as RFC 3986 would.
- EvalSummary.OrderStatistic: ranks and means are exact reals, not binary64.
- Regressions.ReportExact: the threshold 0.05 and the quotient are exact reals; `Date.parse` is
  inside `created`.
