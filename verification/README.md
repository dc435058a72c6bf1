# A verified model of the order book and its accounting kernel

This project models, in Dafny 4.11, the part of a market simulation and trading code base where state is
kept in several structures that must agree, and proves what the code promises about them.

* **The limit order book** (`BookState`, `Market`, `Limit`, `Agreement`, `Exactness`, `Crossing`, `Removal`,
  `Reservoir`, `Ttl`, `Report`, `Progress`, `Runs`, and the class in `OrderBooks`). The book is two maps from tick price to a first-in-first-out queue and an
  index from order id to price, side and queue position. Each operation is a method of the class `OrderBook`,
  with the loops of the source, proved equal to a specification function on book values. About those functions:
  both matchers refine a greedy sweep of the flattened opposite side, their fills have a closed form, volume is
  conserved, and the two matchers agree under an exact condition that can be computed before the call; over every
  run the index agrees with the queues, and it is exact, and bids stay below asks, under exact conditions as well.
* **Isotonic calibration** (`Isotonic`): pool adjacent violators is the unique optimum among all nondecreasing
  functions, at every training score, and between them it has the value of the next one.
* **Average-cost profit and loss** (`Pnl`): the accounting identity at every report, and two invariances.
* **The fetch planner** (`FetchPlan`): gaps, window cuts and requests tile exactly what is missing, with every
  gap, chunk and request pinned down.
* **The agent order tracker** (`Tracker`): two agreeing maps and an argmin search over 64-bit prices.
* **The bar dataset cache** (`BarCache`): a least-recently-used characterisation over every trace of loads.
* **The microstructure generator** (`Generators`, `GeneratorRuns`, `BlackSwan`): its id pools beside the real
  book, which tracked orders rest, and the cooldown of its rare events.
* **Clock synchronisation** (`ClockSync`) and **kline aggregation** (`Klines`, `KlineBars`).

`OrderIds` is the id source. `KeyOrder` (iteration order of ordered containers), `Sorting`, `Division`, `Reals`,
`Sequences` and `Folded` (a guard that keeps costly invariants closed) are shared helpers.

Classes and methods follow the source where it changes state; pure code is functions. Volumes, prices of
fills, scores and timestamps that the source keeps as floating point are exact reals. Inner loops of nested
loops are methods of their own.

## What came out different from what the code suggests

* `match_limit_order` and `prune_stale_orders` do not renumber the queue (OrderBook.cpp:466-473, 524-538), so
  after them a stored queue position can lie above the true one, or a stored id rest nowhere. All runs keep the
  weaker agreement that every resting order is indexed at its price and side, never below its true position.
  From an exact index, pruning keeps it exact if and only if nothing is pruned
  (`Exactness.PruneKeepsExactly`), and limit matching if and only if the offers used up are none, all, or end
  where a price level ends (`Exactness.LimitKeepsExactly`). `Runs.RunKeepsExactly` carries both over runs.
* The market handler takes every trade at a negative tick price for a fee (OrderBook.cpp:374), whatever the
  price. Its report is complete if and only if no price is negative, and its fee total is right if and only if
  the volumes traded at negative prices add up to nothing (`Report.HandlerIsRightExactly`).
* The two matchers use different tolerances, 1e-9 and 1e-12: a taker of 5e-10 trades at a limit and not at
  market, and a maker left with 5e-10 rests on after a limit order and not after a market order.
  `Agreement.AgreeExactly` says for all volumes when trades and remaining orders agree, and
  `Agreement.AgreeExactlyOnVolumes` says it by prefix sums; on integer lots they always do.
* The random cancellation is not a fair sample. Its counter of orders seen advances twice for each order met when
  the reservoir is full (OrderBook.cpp:565-569), so later orders are drawn for among too many numbers.
  `Reservoir.ShareExactly` gives the share of each order over all equally likely draws, and
  `Reservoir.FairExactly` says that the sample is fair if and only if there are no more public orders than are to
  be cancelled; `Reservoir.OneOfTwo` is an instance.
* A cached timestamp off the grid hides every later cached slot from the gap scan, which then fetches those
  slots again; no absent slot is ever missed (`FetchPlan.PlannedIff` says exactly which slots are planned).
* Aggregating klines in two steps is not always the same as in one: the edge check takes a lone row for a
  complete window. `Klines.TwoStepsExactly` gives the exact condition,
  `Klines.ThreeMinutesPassForFifteen` an instance.
* Two different contents of a file under the same modification time are not told apart by the bar cache. A load
  returns outdated bars or metadata if and only if its key is still cached, the last call that read the file
  recorded the stamp the file has now, and it read another content (`BarCache.ResultIsOutdatedExactly`). The
  "path" in the metadata is the spelling of the call that read the file.
* Tracked ids need not rest. While the generator only adds and cancels, tracked and resting are the same
  (`GeneratorRuns.QuietRunMirrors`); one of its market orders takes exactly the tracked orders it meets out of
  the book and leaves them tracked (`GeneratorRuns.MarketTakesExactly`); and `reset` tracks seed orders that it
  never inserts (`Generators.StartIsConsistent`).

## Model

| member | source | states |
|---|---|---|
| OrderIds.Generator.MakeOrderId | OrderBook.h:30-39 | the k-th call returns the k-th id of a closed form, with the epoch rolling over one call late |
| OrderIds.SameIdIff | OrderBook.h:27-39 | two calls return the same id exactly when they are a whole number of full cycles of all epochs apart |
| OrderIds.FirstHalf | OrderBook.h:30-39 | ids grow within a cycle and stay below 2^63 exactly for its first half |
| BookState.IndexMeansResting | OrderBook.h:55-62 | under the weak agreement every resting id is indexed at its own place; under the exact one the indexed ids are exactly the resting ones |
| BookState.AddKeeps | OrderBook.cpp:82-114 | adding an order with a fresh id keeps both agreements of index and queues |
| BookState.RemoveKeeps | OrderBook.cpp:166-210 | removing any id at any price and renumbering what follows keeps both agreements |
| BookState.SameIdsKeep | OrderBook.cpp:317-346 | changes of volume or time-to-live in place keep both agreements |
| Market.FlatAtPrice | OrderBook.h:64-65 | flattening a side loses nothing and keeps time priority: at each price it reads back the queue |
| Market.FlatMembers | OrderBook.h:64-65 | the flattened side holds exactly the orders of its queues |
| Market.FlatIsSorted | OrderBook.h:64-65 | flattening keeps price priority, best price first |
| Market.FlatIsIteration | OrderBook.cpp:556-562 | iterating the map level by level meets the orders in the flattened order |
| Market.WalkIsGreedy | OrderBook.cpp:282-358 | the nested market loops make exactly the trades, and leave exactly the orders, of a greedy sweep of the flattened opposite side; the other side is untouched |
| Market.GreedyConserves | OrderBook.cpp:289-349 | taker volume is fills plus leftover; the side loses fills, deleted agent makers and at most one residue below 1e-9 |
| Market.NoSelfTrade | OrderBook.cpp:297-306 | an agent taker never trades with an agent maker, and only agent makers are deleted untraded |
| Market.FillsInClosedForm | OrderBook.cpp:289-349 | the k-th trade is with the k-th eligible maker for the smaller of its volume and what the makers before it left, and the fills stop only when makers or volume run out |
| Market.PopsKeep | OrderBook.cpp:302-347 | popping front orders one by one, each with renumbering, keeps both agreements |
| Market.DeletesExactlyWhatItMeets | OrderBook.cpp:297-306 | of the agent makers an agent taker deletes exactly those before which, and before every earlier offer, the eligible makers leave more than 1e-9 of its volume |
| Market.WalkFills | OrderBook.cpp:334-345 | the number reported as fully executed is the number of makers the taker may trade with that leave the side |
| Market.WalkKeeps | OrderBook.cpp:282-358 | market matching keeps both agreements of index and queues |
| Limit.LimitWalkIsGreedy | OrderBook.cpp:399-513 | the nested limit loops make exactly the trades, and leave exactly the orders, of a sweep that stops at the limit, at the report room or at the volume |
| Limit.FillsInClosedForm | OrderBook.cpp:442-509 | the k-th trade is with the k-th offer, within the limit; with room left the sweep stops only at the limit, at the end of the side or with no volume left |
| Limit.GreedyConserves | OrderBook.cpp:442-509 | volume is conserved up to one residue of at most 1e-12, and leftover volume and room mean an empty side or a best price beyond the limit |
| Agreement.AgreeExactly | OrderBook.cpp:282-513 | with the limit out of reach, a non-agent taker's limit and market sweeps make the same trades and leave the same orders if and only if the room holds the market trades, no maker is left with dust, and no dust is left to trade unless the room ends there |
| Agreement.DustInClosedForm | OrderBook.cpp:289-509 | whether dust is traded or left behind is decided by prefix sums of the offered volumes |
| Agreement.AgreeExactlyOnVolumes | OrderBook.cpp:282-513 | without negative volumes and with room to spare, agreement fails exactly if what is left of the taker after some offers is in (1e-12, 1e-9], or an offer reached with more than that exceeds it by a number in (1e-12, 1e-9) |
| Agreement.AgreesWithoutDust | OrderBook.cpp:282-513 | without dust, for any limit and room, the limit trades are the first of the market trades |
| Agreement.AgreesOnLots | OrderBook.cpp:282-513 | on integer lots a non-agent taker's limit trades are a prefix of its market trades, and all of them, with the same orders left, when limit and room allow |
| Agreement.MatchersAgreeExactly | OrderBook.cpp:282-513 | the exact condition on whole agreeing books: equal trades and equal queues |
| Agreement.MatchersAgreeOnLots | OrderBook.cpp:282-513 | on integer lots, with the limit out of reach, room for the market trades is enough |
| Agreement.DustTradesOnlyAtLimit | OrderBook.cpp:289-509 | an instance: a taker of 5e-10 trades only at a limit |
| Agreement.DustRestsOnlyAtLimit | OrderBook.cpp:311-473 | an instance: a maker left with 5e-10 rests on only after a limit order |
| Agreement.SmallestTaker | OrderBook.cpp:289-509 | a taker trades at market if and only if its volume is above 1e-9, and at a limit if and only if it is above 1e-12 |
| Agreement.SmallestRemainder | OrderBook.cpp:336-473 | a maker that is not used up rests on at market if and only if it keeps 1e-9 or more, and at a limit if and only if it keeps more than 1e-12 |
| Exactness.UsedUpIsGone | OrderBook.cpp:442-509 | the number of offers used up, computed before the sweep, is the number of orders that leave |
| Exactness.LevelKeepsExactly | OrderBook.cpp:466-503 | matching within a level keeps an exact index exactly if it empties the level or pops nothing |
| Exactness.LimitKeepsExactly | OrderBook.cpp:399-513 | from an exact index, limit matching leaves an exact index if and only if the offers used up are none, all, or end where a price level ends |
| Exactness.LimitMatchingBreaksExactness | OrderBook.cpp:466-473 | an instance: one of two asks at a price is taken and the other keeps its old position |
| Exactness.PruneKeepsExactly | OrderBook.cpp:524-538 | from an exact index, pruning leaves an exact index if and only if no resting order is too old |
| Exactness.PruningBreaksExactness | OrderBook.cpp:524-538 | an instance: a pruned order stays indexed |
| Limit.LimitWalkKeeps | OrderBook.cpp:466-503 | limit matching keeps every resting order indexed at its price and side, never below its position |
| Crossing.CrossesExactly | OrderBook.cpp:57-68 | in a book without empty levels a new order crosses if and only if some order of the other side is priced within its limit |
| Crossing.CrossesTrades | OrderBook.cpp:57-68 | a new order crosses if and only if a limit order of its side at its price, of any volume worth trading and with any room, would trade |
| Crossing.AcceptKeepsUncrossed | OrderBook.cpp:57-114 | from a book with every bid below every ask, adding an order leaves such a book if and only if it is POST_ONLY or does not cross |
| Crossing.RunStaysUncrossed | OrderBook.cpp:42-583 | over a legal run of all operations every bid stays below every ask if and only if no order without POST_ONLY crosses when it is added |
| Crossing.AddStandsLast | OrderBook.cpp:82-114 | a new order stands behind all orders at its price, and nothing else moves |
| Removal.FilterKeepsOrder | OrderBook.cpp:526-534 | the k-th survivor of a filtered queue stood at place k or later |
| Removal.RemoveAllStrips | OrderBook.cpp:575-582 | removing listed orders one by one leaves every queue without them, otherwise unchanged, and keeps both agreements |
| Removal.FlatOfStrip | OrderBook.cpp:575-582 | taking orders out moves no other order in priority |
| Removal.CancelEffect | OrderBook.cpp:551-583 | for every outcome of the draws exactly min(n, public orders) orders leave the side (none for n <= 0), the others keep their priority, the other side is untouched and both agreements hold |
| Removal.CancelSparesAgents | OrderBook.cpp:556-573 | no agent order is ever cancelled |
| Removal.SamplingStep | OrderBook.cpp:556-573 | each step of the reservoir, for any draw in range, keeps a sample of distinct public orders met so far of the right size, made by the draws so far, with the counter that the code keeps |
| Removal.DrawnIsSample | OrderBook.cpp:556-573 | every sample that draws in range can make is min(n, public orders) distinct public orders |
| Reservoir.ShareExactly | OrderBook.cpp:556-573 | with every draw equally likely, of m public orders, more than n, the first n are cancelled as often as all later draws spare their place, and the one at place j as often as it is drawn, n in 2 j - n + 2, and then spared |
| Reservoir.ShareIsPositive | OrderBook.cpp:556-573 | every public order can be cancelled |
| Reservoir.FairExactly | OrderBook.cpp:556-573 | all public orders are cancelled equally often if and only if there are at most n of them |
| Reservoir.OneOfTwo | OrderBook.cpp:556-573 | an instance: of two orders, when one is to be cancelled, the first is it in two of three cases |
| Removal.PruneKeeps | OrderBook.cpp:524-538 | pruning keeps every resting order indexed at its price and side, never below its position |
| Removal.PruneByAge | OrderBook.cpp:524-538 | an order rests after pruning if and only if it rested before, at the same place, and now minus its timestamp is below max_age |
| Ttl.OnePlace | OrderBook.cpp:212-233 | in an agreeing book an id rests at one place only |
| Ttl.SetTtlAtPlace | OrderBook.cpp:212-233 | overwriting the one order with the id is the whole effect of setting a time-to-live |
| Ttl.SetTtlKeeps | OrderBook.cpp:212-233 | setting a time-to-live keeps both agreements |
| Ttl.ExpiringIsLastStep | OrderBook.cpp:243-260 | the orders listed by a decay step are exactly the resting ones with one step to live |
| Ttl.CalledOnceEach | OrderBook.cpp:243-260 | the callback sees each listed order once, in order, with its counter at zero |
| Ttl.ExpiringIsDistinct | OrderBook.cpp:243-260 | no order is listed twice |
| Ttl.DecayInOrder | OrderBook.cpp:235-273 | a decay step leaves the priority order of the orders not at their last step, each one step older; a side loses as many orders as were listed on it |
| Ttl.DecayCancels | OrderBook.cpp:235-273 | the book loses exactly as many orders as the cancel callback is called for |
| Ttl.DecayEffect | OrderBook.cpp:235-273 | a decay step leaves exactly the orders not at their last step, in their old order, and keeps both agreements |
| Ttl.DecayOfOne | OrderBook.cpp:235-273 | seen from one order: cancelled if its counter was 1, otherwise still in place, one step older if positive |
| Runs.StepKeeps | OrderBook.cpp:82-583 | each of the eight operations keeps the weak agreement, and the reindexing ones the exact one |
| Runs.RunKeeps | OrderBook.cpp:82-583 | after every legal run each resting order is indexed at its price and side, never below its position, with no empty level; after reindexing operations only, the index is exact |
| Runs.EmptyBookIsExact | OrderBook.h:64-65 | the empty book is where runs start |
| Runs.StepKeepsExactly | OrderBook.cpp:82-583 | each of the eight operations leaves an exact index exact if and only if the condition of its kind holds before it |
| Runs.RunKeepsExactly | OrderBook.cpp:82-583 | over a legal run of all operations the index is exact after every step if and only if each limit match and each pruning meets its condition when its turn comes |
| Runs.StepShrinks | OrderBook.cpp:166-583 | operations that neither add nor touch counters only take orders or volume away and move nothing |
| Runs.RunBack | OrderBook.cpp:212-273 | an order resting after a run that did not add or reset it rested at the same place before it, its counter lower by exactly the decay steps of the run |
| Runs.CancelledOnExactlyItsStep | OrderBook.cpp:212-273 | an order given time-to-live k that is still resting is cancelled by the next decay step if and only if k is positive and that is the k-th decay step |
| Report.HandlerOfTrades | OrderBook.cpp:369-396 | for any prices the handler reports the trades at prices from zero up, once and in order, and collects the agent's fees plus the volumes of all other trades |
| Report.HandlerIsRightExactly | OrderBook.cpp:369-396 | the report is complete if and only if no trade has a negative price, and the fee total is right if and only if the volumes at negative prices add up to nothing |
| Report.NegativePriceIsTakenForAFee | OrderBook.cpp:369-396 | an instance: at price -1 a trade goes unreported and its volume counts as a fee |
| Report.SlippedNotional | OrderBook.cpp:310-314 | slippage raises a buyer's notional and lowers a seller's by the same part of volume times price, with prices in hundredths |
| Report.FeeByTurnover | OrderBook.cpp:316-333 | the fees of a market order are the taker's rate on its turnover, if it is the agent, plus the maker's rate on its turnover with agents, both after slippage |
| Report.LimitFeeByVolume | OrderBook.cpp:461-464 | the fees of a limit order are the taker's rate on its volume, if it is the agent, plus the maker's rate on the volume traded with agents |
| Report.RowsOfTrade | OrderBook.cpp:376-384 | market rows have prices in money and limit rows in ticks; otherwise they report a trade alike, field by field |
| OrderBooks.OrderBook.constructor | OrderBook.h:104-110 | a new book is empty and valid |
| OrderBooks.OrderBook.AddLimitOrderEx | OrderBook.cpp:42-116 | appends to the queue and indexes the order, or rejects a POST_ONLY order exactly when some order of the other side is priced within its limit; a POST_ONLY order keeps every bid below every ask |
| OrderBooks.OrderBook.RemoveOrder | OrderBook.cpp:166-210 | removes the first order with the id at the price, renumbers, erases an emptied level; keeps both agreements |
| OrderBooks.OrderBook.MeetFront | OrderBook.cpp:294-346 | one meeting of taker and front order: deletion without trade, full fill or partial fill, with the callbacks it makes |
| OrderBooks.OrderBook.MatchLogic | OrderBook.cpp:282-358 | the nested loops compute the specified walk, its callback log and its counts |
| OrderBooks.OrderBook.Handle | OrderBook.cpp:369-396 | writes the first max_len trades of the callback log and sums its fees |
| OrderBooks.OrderBook.MatchMarketOrder | OrderBook.cpp:363-397 | the report is the first min(rows, max_len) rows while the book effect ignores max_len; keeps both agreements |
| OrderBooks.OrderBook.MatchLimitOrder | OrderBook.cpp:399-513 | book, rows and fees are those of the specified limit walk; keeps the weak agreement |
| OrderBooks.OrderBook.SetOrderTtl | OrderBook.cpp:212-233 | finds the order wherever it rests, sets its counter, and returns whether it rests |
| OrderBooks.OrderBook.DecayTtlAndCancel | OrderBook.cpp:235-273 | performs a decay step; the number returned is the number of callbacks and the number of orders the book loses |
| OrderBooks.OrderBook.CancelRandomPublicOrders | OrderBook.cpp:551-583 | for any draws removes the sample that those draws make; keeps both agreements |
| OrderBooks.OrderBook.PruneStaleOrders | OrderBook.cpp:524-538 | filters every level by age, erases emptied levels, leaves the index alone |
| OrderBooks.OrderBook.ContainsOrder | OrderBook.cpp:543-546 | membership in the index, which is resting under the exact agreement |
| OrderBooks.OrderBook.GetQueuePosition | OrderBook.cpp:609-614 | under the exact agreement the true queue position modulo 2^32, and the largest 32-bit number for an order that does not rest |
| OrderBooks.OrderBook.GetBestBid | OrderBook.cpp:518 | the greatest bid price, -1 without bids |
| OrderBooks.OrderBook.GetBestAsk | OrderBook.cpp:519 | the least ask price, -1 without asks |
| Isotonic.MergeIsBlock | calibration.py:271-275 | pooling two adjacent violators gives a block whose prefixes all have at least its mean |
| Isotonic.CrossBound | calibration.py:266-275 | summation by parts over a block against any nondecreasing function |
| Isotonic.BlockIsBest | calibration.py:266-275 | on a block every nondecreasing function loses more than the mean by at least its squared distance from it |
| Isotonic.StepIsNondecreasing | calibration.py:298-316 | the stored step function is nondecreasing over all scores |
| Isotonic.LookupInBlock | calibration.py:309-315 | a training score is looked up in the block that holds it |
| Isotonic.FitIsOptimal | calibration.py:225-316 | every nondecreasing function of the score loses more than the fit by at least its squared distance from it |
| Isotonic.OptimumIsUnique | calibration.py:225-316 | a nondecreasing function that loses no more has the fit's value at every training score |
| Isotonic.CleanInParts | calibration.py:226-231 | exactly the positions with finite score and label are kept, in order |
| Isotonic.StepAtNext | calibration.py:309-315 | with training scores as thresholds a lookup at any score gives the value at the next training score |
| Isotonic.NextScoreExists | calibration.py:309-315 | every score has such a training score |
| Isotonic.IsotonicCalibrator.Group | calibration.py:239-260 | equal scores are averaged into blocks that cover the sorted points |
| Isotonic.IsotonicCalibrator.Pool | calibration.py:262-275 | the pooling loop leaves covering blocks with ascending means |
| Isotonic.RunEndIsKept | calibration.py:281-291 | the last of each run of thresholds that do not increase is kept, threshold and value together |
| Isotonic.KeptIsRunEnd | calibration.py:281-291 | nothing else is kept |
| Isotonic.StepAtEnds | calibration.py:309-315 | at and below the first threshold the step function has its first value, beyond all thresholds its last |
| Isotonic.IsotonicCalibrator.Deduplicate | calibration.py:281-291 | the output is what stands at the run ends; if the thresholds do not fall it increases strictly |
| Isotonic.IsotonicCalibrator.Fit | calibration.py:225-316 | the stored function is nondecreasing and optimal among all nondecreasing functions for the finite points; its thresholds are training scores, and at any score it has the value of the least training score not below it, or of the greatest one |
| Isotonic.IsotonicCalibrator.PredictProba | calibration.py:298-316 | each output is the stored step function at the score, its first value at minus infinity, its last at plus infinity and not-a-number, and 0.5 when nothing is stored |
| Pnl.ReplayBalances | aggregate_exec_logs.py:440-484 | after any trades the position is the signed sum of quantities, a non-zero one has an average, and realized profit is cash flow plus position at that average |
| Pnl.TotalIsWorth | aggregate_exec_logs.py:486-505 | at a report the total is cash flow plus position times mark whenever there is a mark |
| Pnl.TotalAtQuotes | aggregate_exec_logs.py:486-505 | the mtm price comes first; without it a long position is valued at the bid and a short one at the ask, without that quote only what is realized counts, and a flat one is its cash |
| Pnl.TotalIsWorstQuote | aggregate_exec_logs.py:486-505 | with both quotes, not crossed, and no mtm price the total is the smaller of cash plus position at the bid and at the ask |
| Pnl.TotalOfFlipped | aggregate_exec_logs.py:440-505 | exchanging BUY and SELL and with them bid and ask negates every total |
| Pnl.TradeAdds | aggregate_exec_logs.py:444-483 | a trade that adds to a position realizes nothing and its new average carries the cost of both parts; from flat the average is its price |
| Pnl.TradeCloses | aggregate_exec_logs.py:444-483 | a trade against a position realizes profit on exactly the quantity closed, at the average, which stays for what is left and starts anew across zero |
| Pnl.DueByTime | aggregate_exec_logs.py:438-440 | the trades replayed for a report are those at its time or earlier; a report without a time comes last |
| Pnl.ReplayOfFlipped | aggregate_exec_logs.py:440-484 | exchanging BUY and SELL negates position and realized profit and keeps the average |
| Pnl.ApplyInTwoParts | aggregate_exec_logs.py:444-483 | two positive parts of a trade at its price do what the whole does, also across zero |
| Pnl.ReplayOfSplit | aggregate_exec_logs.py:440-484 | splitting any trade of a run changes nothing after it |
| Pnl.ApplyTrade | aggregate_exec_logs.py:441-484 | the branches of the inner loop compute the specified state |
| Pnl.Recompute | aggregate_exec_logs.py:432-507 | the two-pointer replay gives, at each report, the total after replaying from scratch all trades due at it |
| FetchPlan.AlignedIsSmallest | build_adv_base.py:188-191 | the aligned range is the smallest grid range that contains the given one |
| FetchPlan.PlannedIff | build_adv_base.py:212-234 | a slot is planned unless it is cached and no off-grid timestamp is cached before it, so no absent slot is missed |
| FetchPlan.PlannedIsInRange | build_adv_base.py:203-234 | nothing outside the aligned range is planned |
| FetchPlan.IterMissingRanges | build_adv_base.py:203-234 | the ranges are, in order and without repetition, the slots the scan treats as missing, and between two of them at least one slot is left out |
| FetchPlan.CeilIsFewest | build_adv_base.py:237-265 | no requests of allowed size cover n slots with fewer than n divided by the size, rounded up |
| FetchPlan.WindowRanges | services/rest_budget.py:1756-1774 | the windows tile the grid range, each of max(1, chunk_days) whole days but perhaps the last |
| FetchPlan.CutAtWindows | build_adv_base.py:528-537 | cutting gaps at window edges loses and repeats no slot; every chunk lies in one window, and between two chunks a slot is left out or a window begins |
| FetchPlan.SplitRange | build_adv_base.py:249-265 | a range of n bars takes n divided by max(1, limit), rounded up, requests: full ones and perhaps a shorter last one |
| FetchPlan.SplitRangesToTasks | build_adv_base.py:237-265 | the requests are those of the ranges one after the other, with the same slots, each with 1 to max(1, limit) bars |
| FetchPlan.Plan | build_adv_base.py:493-545 | the composition plans exactly the missing slots, in chunks that no day window cuts and that cannot be joined, each in as few requests as its size allows |
| FetchPlan.ExactTiling | build_adv_base.py:203-265 | with cached timestamps on the grid each missing slot is covered exactly once and no cached slot at all |
| FetchPlan.TaskCoversItsRange | build_adv_base.py:74-82 | a slot belongs to a request exactly if it lies on its grid between its start and its exclusive end |
| Tracker.AgreeDetermines | AgentOrderTracker.h:171-172 | agreement determines the price buckets from the id map |
| Tracker.RunAgrees | AgentOrderTracker.h:23-61 | after any run of add, re-add, remove and clear the maps agree with no empty bucket, and an id is tracked as the last operation that concerns it says |
| Tracker.AbsDiff | AgentOrderTracker.h:174-178 | the 64-bit distance is exact for all 64-bit prices |
| Tracker.ClosestIsUnique | AgentOrderTracker.h:105-168 | at most one order is first in distance, price and id |
| Tracker.AgentOrderTracker.Add | AgentOrderTracker.h:23-40 | moves or inserts the id in both maps, keeping their agreement |
| Tracker.AgentOrderTracker.Remove | AgentOrderTracker.h:43-55 | takes the id out of both maps, keeping their agreement |
| Tracker.AgentOrderTracker.Clear | AgentOrderTracker.h:58-61 | empties both maps |
| Tracker.AgentOrderTracker.FindClosestOrder | AgentOrderTracker.h:105-168 | returns the tracked order first in (distance to target, price, id), or the pair (-1, least 64-bit number) exactly when nothing is tracked |
| BarCache.LoadKeeps | adv_store.py:406-433 | a load keeps the four structures in step and moves its key to the young end of the list cut to the limit |
| BarCache.OrderIsMostRecent | adv_store.py:364-433 | over every trace the recency list is duplicate-free, is the key set of all three dictionaries, and is the limit most recently requested distinct keys, oldest first |
| BarCache.OrderIsCut | adv_store.py:373-379 | all recent keys are kept up to the limit, and beyond it the limit youngest; 0 is no limit |
| BarCache.ParseGives | adv_store.py:355-361 | what a read gives: bars, their number, and the file's own path entry or the path as given |
| BarCache.EntryIsLastRead | adv_store.py:406-433 | what is cached under a key is what the last call that read its file read, under the stamp it recorded |
| BarCache.ResultIsOutdatedExactly | adv_store.py:381-433 | a load returns outdated bars or metadata if and only if its key is among the limit most recent, the last call that read the file recorded the present stamp, and it read another content |
| BarCache.ReadAgain | adv_store.py:381-433 | a file that is gone, carries another stamp than the one recorded when it was last read, or whose key fell out of the limit is read again |
| BarCache.NotReadAgain | adv_store.py:381-433 | one that carries the recorded stamp and whose key is within the limit is not |
| BarCache.ResultIsCurrent | adv_store.py:381-433 | in particular a load returns what reading the file now would give when no earlier call recorded the present stamp for another content |
| BarCache.SameStampServesOldContent | adv_store.py:385-392 | an instance: a file rewritten within one stamp stays as first read |
| BarCache.ADVStore.TrimBarCache | adv_store.py:373-379 | drops the oldest entries from all structures down to the limit |
| BarCache.ADVStore.MaybeResetBarCache | adv_store.py:381-392 | drops an entry whose file is gone or carries another stamp |
| BarCache.ADVStore.LoadBarDatasetLocked | adv_store.py:406-433 | new cache and result are the specified ones, with the structures in step |
| Generators.TrackKeeps | cpp_microstructure_generator.cpp:251-256 | tracking a new id keeps the ids the disjoint union of the price lists |
| Generators.UntrackKeeps | cpp_microstructure_generator.cpp:258-271 | untracking by swapping with the last id removes exactly that id and keeps the union |
| Generators.RestedBefore | OrderBook.cpp:82-583 | no operation moves an order to another place |
| Generators.EventKeeps | cpp_microstructure_generator.cpp:273-341 | each generator event, and each operation of others, keeps pools, index and the tracking of every resting generator order |
| Generators.RunKeeps | cpp_microstructure_generator.cpp:273-449 | for any draws and interleaving every resting generator order is tracked at its side and price, ids stay below the next id, and no list is empty |
| Generators.StartIsConsistent | cpp_microstructure_generator.cpp:128-200 | new and reset generators are consistent with an empty book, and after a reset some tracked ids rest nowhere |
| Generators.ResetTracks | cpp_microstructure_generator.cpp:145-195 | after a reset the ids 1 to 10 are tracked at the best bid and the nine ticks below it and 11 to 20 at the best ask and the nine ticks above it, around the middle if the quotes are not positive or cross |
| GeneratorRuns.EmptyMirrors | cpp_microstructure_generator.cpp:30-42 | with an empty book and a new generator nothing rests and nothing is tracked |
| GeneratorRuns.QuietRunMirrors | cpp_microstructure_generator.cpp:273-341 | while the generator only adds and cancels, for any draws, a place is tracked if and only if the order rests there |
| GeneratorRuns.RestedAsBefore | OrderBook.cpp:82-583 | no operation changes whose order an order is |
| GeneratorRuns.RunKeepsOwner | cpp_microstructure_generator.cpp:273-449 | over every run with any operations of others, resting generator orders are agent orders |
| GeneratorRuns.MarketTakesExactly | cpp_microstructure_generator.cpp:285-304 | a generator's market order takes a generator order out of the book if and only if the sweep meets it, decided by prefix sums of the eligible makers; the order stays tracked |
| Generators.MicrostructureGenerator.UntrackOrder | cpp_microstructure_generator.cpp:258-271 | the search, swap and pop compute the specified side |
| Generators.MicrostructureGenerator.EmitLimit | cpp_microstructure_generator.cpp:273-283 | the next id is added to the book as an agent order of this size, time and price, and tracked there |
| Generators.MicrostructureGenerator.EmitMarket | cpp_microstructure_generator.cpp:285-304 | the book moves by an agent taker, the pools stay |
| Generators.MicrostructureGenerator.PickBucket | cpp_microstructure_generator.cpp:320-326 | a draw picks the bucket whose interval of weights holds it, so each bucket has as many draws as ids |
| Generators.MicrostructureGenerator.EmitCancel | cpp_microstructure_generator.cpp:306-341 | cancels some tracked order in book and pools whenever one is tracked, and does nothing otherwise |
| Generators.MicrostructureGenerator.Reset | cpp_microstructure_generator.cpp:128-200 | clears pools and counters and tracks ten seeds on each side |
| Generators.MicrostructureGenerator.StepBlackSwan | cpp_microstructure_generator.cpp:372-386 | one step of the counters, with what it amplifies and triggers |
| BlackSwan.TriggersExactly | cpp_microstructure_generator.cpp:372-386 | a step triggers exactly when its draw hits and every earlier trigger is at least max(1, duration) + max(1, cooldown) steps back |
| BlackSwan.AmplifiesExactly | cpp_microstructure_generator.cpp:372-386 | intensities are amplified in exactly the max(1, duration) steps after a trigger |
| ClockSync.SampleError | clock.py:49-52 | a sample is within half its round trip of the true offset |
| ClockSync.MedianIsMiddle | clock.py:75 | the median is the mean of the least sample with half of all at or below it and the greatest with half at or above it; with an odd number both are the same sample |
| ClockSync.MedianSplits | clock.py:75 | at least half of the samples are at or below the median and at least half at or above it |
| ClockSync.P90Covers | clock.py:66-69 | the bound is the least round trip that nine tenths of the samples do not exceed |
| ClockSync.KeptExactly | clock.py:66-73 | of more than one sample exactly those with a round trip up to the bound are kept, as often as they were sampled |
| ClockSync.MovedExactly | clock.py:76-81 | the skew moves by the clamped share of the way to the median, but no further than max_step_ms when that is positive |
| ClockSync.MedianError | clock.py:66-75 | the median of the retained samples is within half the 90th-percentile round trip |
| ClockSync.SyncError | clock.py:76-84 | an update moves at most max_step_ms when that is positive, never exceeds the larger of the old error and the median's, and is a weighted mean of both or takes the whole step off |
| ClockSync.RunError | clock.py:56-87 | over every run of syncs the error stays within the larger of the initial one and half the worst filtered round trip |
| ClockSync.Clock.CollectSyncSamples | clock.py:43-53 | max(1, attempts) requests give one sample each, and each causal one is within half its round trip of the true offset |
| ClockSync.Clock.ApplySyncSamples | clock.py:56-87 | new skew, time stamp and median round trip; an empty batch changes nothing |
| Klines.GroupedIsOnePass | agg_klines.py:70-86 | on time-sorted rows grouping by bucket is a pass that only looks at the last bar: ascending, one bar per bucket, made of all its rows |
| Klines.AggregationComposes | agg_klines.py:70-86 | aggregating to a and then to a multiple b gives the bars of aggregating to b |
| Klines.TwoStepsExactly | agg_klines.py:41-109 | with the edge and gap checks the outcomes agree except, exactly, when complete rows fill one intermediate window at the start of a coarser one |
| Klines.ThreeMinutesPassForFifteen | agg_klines.py:46-48 | three one-minute rows are rejected as a quarter hour and accepted by way of three minutes |
| Klines.GroupedConserves | agg_klines.py:70-86 | grouping by bucket loses nothing and counts nothing twice, whatever the order of the rows |
| Klines.AcceptedConserves | agg_klines.py:49-109 | with or without dropped edges and for rows in any order, accepted bars conserve the volumes and counts of the rows they are made of, hold open and close in their range, are one for each bucket with rows, lie on the grid and have no gap or duplicate |
| KlineBars.AcceptedSays | agg_klines.py:70-86 | in either mode and for rows in any order an accepted bar opens with the first and closes with the last row of its bucket, its high and low are attained and bound those of all its rows, and its volumes and counts are the sums over them |
| KlineBars.EdgesExactly | agg_klines.py:41-48 | the edges are fine if and only if the earliest row starts a window and the latest one, with the base step, ends one |
| KlineBars.BaseStepExactly | agg_klines.py:44-46 | the base step is the least difference of two different timestamps, or the target step if there is only one |
| KlineBars.TrimmedExactly | agg_klines.py:60-63 | dropping edges drops exactly the rows in the window of the earliest row, if that does not start it, and in the window of the latest, if that does not end it |
| Klines.CheckEdges | agg_klines.py:38-65 | the loop over symbols trims or reports exactly the groups with incomplete edges |
| Klines.PairsAreOffenders | agg_klines.py:99-106 | the listed pairs are exactly the pairs of neighbours that are not one step apart; none are listed exactly if there is no gap or duplicate |
| Klines.GapProblems | agg_klines.py:99-106 | the loop lists the offending pairs, in order |
| Klines.Aggregate | agg_klines.py:19-109 | the frame is accepted exactly when every symbol is, with each symbol's bars |

## Left out

- Order ids of 2^63 and more: ids are `OrderId`, below 2^63, as `make_order_id` hands them out in the first half of its cycle; that an added id is fresh is the caller's obligation.
- The 32-bit store of queue positions: positions are kept unbounded and reduced modulo 2^32 when they are read.
- The maker record read after `pop_front` (OrderBook.cpp:304-305, 467-471): its id and flags are the ones saved before the pop.
- Trade and cancel callbacks as calls: they are recorded as a log in call order, which the market handler then reads; a callback that changes the book is not modelled.
- The five parallel output buffers of the matchers: one array of rows; null buffers are not modelled.
- The fee constants TAKER_FEE, MAKER_FEE and SLIP_K, from a header that is not part of this model: parameters.
- The copy-on-write build, cloning and swapping of books, and `volume_for_top_levels`.
- Immediate-or-cancel as such: the code rests these orders like ordinary ones (OrderBook.cpp:70-79), and so does the model.
- Floating-point rounding, infinities and not-a-number in volumes, prices and skews: exact reals; missing values in reports and scores are explicit.
- Distributions of random draws: every draw is an arbitrary value in its range, and a share is taken over all equally likely draws of the reservoir; the other draws have no distribution.
- The order in which equal scores or equal timestamps come out of `argsort` and `sort_values`: insertion order of a stable sort for scores, any order for trades.
- The time-to-live list of `decay_ttl_and_cancel` as a vector shared by both sides: the two sides' lists are joined.
- Intensities, order sizes and price levels of the generator's step: its events are arbitrary sequences with arbitrary prices and sizes; the event report buffer, the last trade's sign and size, and 64-bit overflow of its id counter are not modelled.
- A book that already holds orders with generator ids when the generator starts or is reset: ids from 1 on would collide.
- Reading and parsing bar files, path resolution and symbol normalisation: the file's content and absolute path are parameters; that a hit returns the cached dictionary itself and not a copy is not modelled.
- Resumed planning runs, checkpoints, the sorting of requests by symbol, and the fallback windows for an empty range: one symbol on an aligned, non-empty range.
- The fallback of `abs_diff` for compilers without 128-bit integers (AgentOrderTracker.h:180-185).
- Truncation of local clock readings to whole milliseconds, drifting offsets, and failing requests.
- Missing values inside kline rows and the type casts of `_agg`; `Klines.TwoStepsExactly` is about rows without gaps.
- Locks: each locked call is one step.
