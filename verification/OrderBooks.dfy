/** The order book object: two maps from tick price to a queue, and the index from order id to place. */
module OrderBooks {
  import opened Sequences
  import opened KeyOrder
  import opened BookState
  import opened Reals
  import opened Report
  import opened Folded
  import B = BookState
  import M = Market
  import L = Limit
  import R = Removal
  import T = Ttl
  import P = Progress
  import X = Crossing
  import Runs

  datatype TimeInForce = GTC | IOC | POST_ONLY

  const NOT_FOUND: int := 0xFFFF_FFFF

  /** Where the inner limit loop began: the book and the level, the taker, and what the buffer held. */
  datatype LevelRun = LevelRun(s: Book, isBuy: bool, price: int, volume: real, room: int, takerIsAgent: bool,
    feeModel: FeeModel, was: seq<Row>, first: seq<Row>)

  /** Where it stands after some trades: book, rows, fees and buffer are those of the trades done. */
  ghost predicate LevelSoFar(run: LevelRun, now: Book, remain: real, done: seq<M.Trade>, rows: seq<Row>, fees: real,
      buffer: seq<Row>)
  {
    && |done| == |rows|
    && P.LimitInvariant(run.s, !run.isBuy, run.price, run.volume, run.room, now, remain, done)
    && forall x {:trigger Open(x, LEVEL)} :: Open(x, LEVEL) ==>
         && Tally(run.isBuy, run.feeModel, run.takerIsAgent, done, rows, fees)
         && buffer == Over(run.was, run.first + rows)
  }

  const LEVEL: int := 70

  /** The same for the outer limit loop. */
  datatype SideRun = SideRun(s: Book, isBuy: bool, limit: int, volume: real, room: int, takerIsAgent: bool,
    feeModel: FeeModel, was: seq<Row>)

  ghost predicate SideSoFar(run: SideRun, now: Book, remain: real, done: seq<M.Trade>, rows: seq<Row>, fees: real,
      buffer: seq<Row>)
  {
    && |done| == |rows|
    && P.LimitSideSoFar(run.s, !run.isBuy, run.limit, run.volume, run.room, now, remain, done)
    && forall x {:trigger Open(x, LEVEL)} :: Open(x, LEVEL) ==>
         && Tally(run.isBuy, run.feeModel, run.takerIsAgent, done, rows, fees)
         && buffer == Over(run.was, rows)
  }

  lemma SideStart(run: SideRun)
    ensures SideSoFar(run, run.s, run.volume, [], [], 0.0, run.was)
  {
    P.LimitSideStart(run.s, !run.isBuy, run.limit, run.volume, run.room);
    TallyOf(run.isBuy, run.feeModel, run.takerIsAgent, []);
    assert Over(run.was, []) == run.was;
  }

  /** The best level, matched and erased if it is used up: r are its trades and what it leaves. */
  lemma SideNext(run: SideRun, now: Book, remain: real, done: seq<M.Trade>, rows: seq<Row>, fees: real, buffer: seq<Row>,
      r: L.QueueRun, next: Book, more: seq<Row>, fee: real)
    requires SideSoFar(run, now, remain, done, rows, fees, buffer)
    requires now.Side(!run.isBuy) != map[] && remain > L.TINY && |done| < run.room
    requires !Before(!run.isBuy, run.limit, Best(!run.isBuy, now.Side(!run.isBuy)))
    requires r == P.LimitBest(now, !run.isBuy, remain, run.room - |done|) && next == P.AfterBest(now, !run.isBuy, r)
    requires |more| == |r.trades| && Tally(run.isBuy, run.feeModel, run.takerIsAgent, r.trades, more, fee)
    ensures SideSoFar(run, next, r.remain, done + r.trades, rows + more, fees + fee, Over(run.was, rows + more))
    ensures |next.Side(!run.isBuy)| <= |now.Side(!run.isBuy)|
    ensures r.remain > L.TINY && |done| + |r.trades| < run.room ==> |next.Side(!run.isBuy)| < |now.Side(!run.isBuy)|
  {
    assert Open(0, LEVEL);
    P.LimitOuterStep(run.s, !run.isBuy, run.limit, run.volume, run.room, now, remain, done);
    TallyJoin(run.isBuy, run.feeModel, run.takerIsAgent, done, rows, fees, r.trades, more, fee);
  }

  lemma SideBuffer(run: SideRun, now: Book, remain: real, done: seq<M.Trade>, rows: seq<Row>, fees: real, buffer: seq<Row>)
    requires SideSoFar(run, now, remain, done, rows, fees, buffer)
    ensures buffer == Over(run.was, rows)
  {
    assert Open(0, LEVEL);
  }

  lemma SideEnd(run: SideRun, now: Book, remain: real, done: seq<M.Trade>, rows: seq<Row>, fees: real, buffer: seq<Row>)
    requires SideSoFar(run, now, remain, done, rows, fees, buffer)
    requires now.Side(!run.isBuy) == map[] || remain <= L.TINY || |done| >= run.room ||
      Before(!run.isBuy, run.limit, Best(!run.isBuy, now.Side(!run.isBuy)))
    ensures var w := L.LimitWalk(run.s, !run.isBuy, run.limit, run.volume, run.room);
      && now == w.book && |rows| == |w.trades|
      && Tally(run.isBuy, run.feeModel, run.takerIsAgent, w.trades, rows, fees)
      && buffer == Over(run.was, rows)
  {
    assert Open(0, LEVEL);
    P.LimitSideEnd(run.s, !run.isBuy, run.limit, run.volume, run.room, now, remain, done);
  }

  lemma LevelStart(run: LevelRun)
    requires run.price in run.s.Side(!run.isBuy)
    ensures LevelSoFar(run, run.s, run.volume, [], [], 0.0, Over(run.was, run.first))
  {
    P.LimitInvariantStart(run.s, !run.isBuy, run.price, run.volume, run.room);
    TallyOf(run.isBuy, run.feeModel, run.takerIsAgent, []);
    assert run.first + [] == run.first;
  }

  lemma LevelNext(run: LevelRun, now: Book, remain: real, done: seq<M.Trade>, rows: seq<Row>, fees: real, buffer: seq<Row>,
      next: Book, tradeVol: real, row: Row, fee: real)
    requires LevelSoFar(run, now, remain, done, rows, fees, buffer)
    requires remain > L.TINY && |done| < run.room && |run.first| + |rows| < |run.was|
    requires P.FrontTaken(now, !run.isBuy, run.price, remain, next)
    requires var maker := now.Side(!run.isBuy)[run.price][0];
      && tradeVol == L.FillOf(maker, remain)
      && Tally(run.isBuy, run.feeModel, run.takerIsAgent, [M.TradeWith(run.price, maker, tradeVol)], [row], fee)
    ensures |buffer| == |run.was|
    ensures LevelSoFar(run, next, remain - tradeVol, done + [M.TradeWith(run.price, now.Side(!run.isBuy)[run.price][0], tradeVol)],
              rows + [row], fees + fee, buffer[|run.first| + |rows| := row])
  {
    assert Open(0, LEVEL);
    var trade := M.TradeWith(run.price, now.Side(!run.isBuy)[run.price][0], tradeVol);
    P.LimitInvariantStep(run.s, !run.isBuy, run.price, run.volume, run.room, now, remain, done, next);
    TallyJoin(run.isBuy, run.feeModel, run.takerIsAgent, done, rows, fees, [trade], [row], fee);
    OverNext(run.was, run.first + rows, row);
    Associative(run.first, rows, [row]);
  }

  class OrderBook {
    var bids: Levels
    var asks: Levels
    var idxMap: Index
    var feeModel: FeeModel
    const rates: Rates

    function State(): Book
      reads this
    {
      Book(bids, asks, idxMap)
    }

    function SideOf(isBuy: bool): Levels
      reads this
    {
      if isBuy then bids else asks
    }

    /** Every resting order is indexed at its price and side, and no level is empty. */
    ghost predicate Valid()
      reads this
    {
      Sound(State())
    }

    constructor (rates: Rates)
      ensures State() == EMPTY && Valid()
      ensures this.rates == rates && feeModel == FeeModel(0.0, 0.0, 0.0)
    {
      bids, asks, idxMap := map[], map[], map[];
      feeModel := FeeModel(0.0, 0.0, 0.0);
      this.rates := rates;
    }

    // ---------- writing one level ----------

    method StoreQueue(isBuy: bool, price: int, queue: Queue)
      modifies `bids, `asks
      ensures State() == old(State()).WithSide(isBuy, old(State()).Side(isBuy)[price := queue])
    {
      if isBuy {
        bids := bids[price := queue];
      } else {
        asks := asks[price := queue];
      }
    }

    method EraseIfEmpty(isBuy: bool, price: int)
      requires price in SideOf(isBuy)
      modifies `bids, `asks
      ensures State() == old(State()).WithSide(isBuy, Put(old(State()).Side(isBuy), price, old(SideOf(isBuy))[price]))
    {
      if isBuy {
        if bids[price] == [] {
          bids := bids - {price};
        }
      } else {
        if asks[price] == [] {
          asks := asks - {price};
        }
      }
    }

    /** The loop `idx_map[dq[j].id].position = j`. */
    method Renumber(queue: Queue, from: nat)
      requires from <= |queue|
      modifies `idxMap
      ensures idxMap == Reindex(old(idxMap), queue, from)
    {
      for j := from to |queue|
        invariant Reindex(old(idxMap), queue, from) == Reindex(idxMap, queue, j)
      {
        idxMap := Repositioned(idxMap, queue[j].id, j);
      }
    }

    // ---------- adding and removing ----------

    method AddLimitOrderEx(isBuySide: bool, price: int, volume: real, orderId: OrderId, isAgent: bool,
        timestamp: int, tif: TimeInForce) returns (accepted: int)
      modifies `bids, `asks, `idxMap
      ensures var order := Order(orderId, volume, isAgent, timestamp, 0);
        State() == Runs.Accept(old(State()), isBuySide, price, order, tif == POST_ONLY)
      ensures accepted == 0 <==> tif == POST_ONLY && Crosses(old(State()), isBuySide, price)
      ensures accepted == 0 || accepted == 1
      ensures old(Valid()) ==> (accepted == 0 <==> tif == POST_ONLY && X.MeetsSome(old(State()), isBuySide, price))
      ensures X.Uncrossed(old(State())) && tif == POST_ONLY ==> X.Uncrossed(State())
      ensures old(Valid()) && !Resting(old(State()), orderId) ==>
        Valid() && (Exact(old(State())) ==> Exact(State()))
    {
      ghost var before := State();
      X.AcceptEffect(before, isBuySide, price, Order(orderId, volume, isAgent, timestamp, 0), tif == POST_ONLY);
      if tif == POST_ONLY {
        if isBuySide {
          if asks != map[] && price >= Best(false, asks) {
            return 0;
          }
        } else {
          if bids != map[] && price <= Best(true, bids) {
            return 0;
          }
        }
      }
      var order := Order(orderId, volume, isAgent, timestamp, 0);
      var queue := QueueAt(SideOf(isBuySide), price) + [order];
      StoreQueue(isBuySide, price, queue);
      idxMap := idxMap[orderId := Entry(price, |queue| - 1, isBuySide)];
      accepted := 1;
    }

    /** `remove_order` with `erase_and_reindex`. */
    method RemoveOrder(isBuySide: bool, price: int, orderId: int)
      modifies `bids, `asks, `idxMap
      ensures State() == B.Remove(old(State()), isBuySide, price, orderId)
      ensures old(Valid()) ==> Valid() && (Exact(old(State())) ==> Exact(State()))
    {
      ghost var before := State();
      if orderId < 0 || price !in SideOf(isBuySide) {
        return;
      }
      var queue := SideOf(isBuySide)[price];
      var i := 0;
      while i < |queue| && queue[i].id != orderId
        invariant 0 <= i <= |queue|
        invariant forall j | 0 <= j < i :: queue[j].id != orderId
      {
        i := i + 1;
      }
      assert i == FindId(queue, orderId);
      if i < |queue| {
        StoreQueue(isBuySide, price, Drop(queue, i));
        idxMap := idxMap - {queue[i].id};
        Renumber(Drop(queue, i), i);
        P.AfterLevel(before, isBuySide, price, Drop(queue, i), idxMap);
      }
      EraseIfEmpty(isBuySide, price);
      assert State() == B.Remove(before, isBuySide, price, orderId);
      RemoveKeepsBoth(before, isBuySide, price, orderId);
    }

    // ---------- matching ----------

    /** The body of the inner loop: the taker meets the front order of a level. The trade callback is
        recorded as the log of its calls. */
    method MeetFront(isBuySide: bool, price: int, remain: real, takerIsAgent: bool)
      returns (fill: real, events: seq<Event>, traded: nat, filled: nat)
      requires price in SideOf(!isBuySide) && SideOf(!isBuySide)[price] != []
      modifies `bids, `asks, `idxMap
      ensures var s := old(State());
        var queue := s.Side(!isBuySide)[price];
        var m := M.Meet(price, queue[0], remain, takerIsAgent);
        && fill == m.fill
        && events == AllEvents(rates, isBuySide, takerIsAgent, m.trades)
        && traded == |m.trades|
        && filled == P.Filled(m)
        && State() == P.MidLevel(s, !isBuySide, price, P.QueueAfter(queue, m), P.IndexAfter(s.index, queue, m))
    {
      var queue := SideOf(!isBuySide)[price];
      var maker := queue[0];
      fill, events, traded, filled := 0.0, [], 0, 0;
      if maker.isAgent && takerIsAgent {
        StoreQueue(!isBuySide, price, queue[1..]);
        idxMap := idxMap - {maker.id};
        Renumber(queue[1..], 0);
        return;
      }
      fill := Min(remain, maker.volume);
      var trade := M.TradeWith(price, maker, fill);
      EventsOfOne(rates, isBuySide, takerIsAgent, trade);
      events := [TradeEvent(trade)];
      if takerIsAgent {
        events := events + [TakerFee(rates, isBuySide, trade)];
      }
      if maker.isAgent {
        events := events + [MakerFee(rates, isBuySide, trade)];
      }
      traded := 1;
      maker := M.Reduced(maker, fill);
      if maker.volume < M.EPS {
        StoreQueue(!isBuySide, price, queue[1..]);
        filled := 1;
        idxMap := idxMap - {maker.id};
        Renumber(queue[1..], 0);
      } else {
        StoreQueue(!isBuySide, price, [maker] + queue[1..]);
      }
    }

    /** The inner loop of `_match_logic` over the level at `price`, which may be left without orders. */
    method MatchLevel(isBuySide: bool, price: int, volume: real, takerIsAgent: bool)
      returns (remain: real, events: seq<Event>, trades: nat, fullExec: nat)
      requires price in SideOf(!isBuySide)
      modifies `bids, `asks, `idxMap
      ensures var s := old(State());
        var queue := s.Side(!isBuySide)[price];
        var r := M.WalkQueue(price, queue, volume, takerIsAgent);
        && State() == P.MidLevel(s, !isBuySide, price, r.queue, M.PopIndex(s.index, queue, r.popped))
        && remain == r.remain
        && events == AllEvents(rates, isBuySide, takerIsAgent, r.trades)
        && trades == |r.trades|
        && fullExec == r.filled
    {
      var hit := !isBuySide;
      remain, events, trades, fullExec := volume, [], 0, 0;
      ghost var s, done := State(), [];
      P.LevelInvariantStart(s, hit, price, volume, takerIsAgent);
      while SideOf(hit)[price] != [] && remain > M.EPS
        invariant P.LevelInvariant(s, hit, price, volume, takerIsAgent, State(), remain, done, fullExec)
        invariant events == AllEvents(rates, isBuySide, takerIsAgent, done) && trades == |done|
        decreases |SideOf(hit)[price]|, if remain > M.EPS then 1 else 0
      {
        ghost var m := M.Meet(price, SideOf(hit)[price][0], remain, takerIsAgent);
        P.LevelInvariantStep(s, hit, price, volume, takerIsAgent, State(), remain, done, fullExec);
        AllEventsOfConcat(rates, isBuySide, takerIsAgent, done, m.trades);
        ghost var queue := SideOf(hit)[price];
        ghost var next := P.MidLevel(State(), hit, price, P.QueueAfter(queue, m), P.IndexAfter(idxMap, queue, m));
        var fill, more, traded, filled := MeetFront(isBuySide, price, remain, takerIsAgent);
        assert State() == next;
        remain := remain - fill;
        events, trades, fullExec := events + more, trades + traded, fullExec + filled;
        done := done + m.trades;
      }
      P.LevelInvariantEnd(s, hit, price, volume, takerIsAgent, State(), remain, done, fullExec);
    }

    /** `_match_logic`. */
    method MatchLogic(isBuySide: bool, volume: real, takerIsAgent: bool)
      returns (events: seq<Event>, trades: nat, fullExec: nat)
      modifies `bids, `asks, `idxMap
      ensures var w := M.Walk(old(State()), !isBuySide, volume, takerIsAgent);
        && State() == w.book
        && events == AllEvents(rates, isBuySide, takerIsAgent, w.trades)
        && trades == |w.trades|
        && fullExec == w.filled
    {
      var hit := !isBuySide;
      var remain := volume;
      events, trades, fullExec := [], 0, 0;
      ghost var start, done := State(), [];
      P.SideStart(start, hit, volume, takerIsAgent);
      while remain > M.EPS && SideOf(hit) != map[]
        invariant P.SideSoFar(start, hit, volume, takerIsAgent, State(), remain, done, fullExec)
        invariant events == AllEvents(rates, isBuySide, takerIsAgent, done) && trades == |done|
        decreases |SideOf(hit)|, if remain > M.EPS then 1 else 0
      {
        ghost var s := State();
        var price := Best(hit, SideOf(hit));
        ghost var r := M.WalkQueue(price, SideOf(hit)[price], remain, takerIsAgent);
        P.SideStep(start, hit, volume, takerIsAgent, s, remain, done, fullExec);
        AllEventsOfConcat(rates, isBuySide, takerIsAgent, done, r.trades);
        M.FewerLevels(s.Side(hit), price);
        P.AfterLevel(s, hit, price, r.queue, M.PopIndex(s.index, s.Side(hit)[price], r.popped));
        var left, more, traded, filled := MatchLevel(isBuySide, price, remain, takerIsAgent);
        EraseIfEmpty(hit, price);
        remain := left;
        events, trades, fullExec := events + more, trades + traded, fullExec + filled;
        done := done + r.trades;
      }
      P.SideEnd(start, hit, volume, takerIsAgent, State(), remain, done, fullExec);
    }

    /** The market handler run over a callback log: writes up to `maxLen` rows and sums the fee markers. */
    method Handle(events: seq<Event>, isBuy: bool, out: array<Row>, maxLen: int) returns (written: nat, feeTotal: real)
      requires maxLen <= out.Length
      modifies out
      ensures written == |Take(Rows(isBuy, events), maxLen)| <= out.Length
      ensures out[..written] == Take(Rows(isBuy, events), maxLen)
      ensures forall i | written <= i < out.Length :: out[i] == old(out[i])
      ensures feeTotal == Fees(events)
    {
      written, feeTotal := 0, 0.0;
      for i := 0 to |events|
        invariant written == |Take(Rows(isBuy, events[..i]), maxLen)| <= out.Length
        invariant out[..written] == Take(Rows(isBuy, events[..i]), maxLen)
        invariant feeTotal == Fees(events[..i])
        invariant forall k | written <= k < out.Length :: out[k] == old(out[k])
      {
        var e := events[i];
        assert events[..i + 1] == events[..i] + [e];
        HandlerOfConcat(isBuy, events[..i], [e]);
        if e.px < 0 {
          feeTotal := feeTotal + e.amount;
        } else if written < maxLen {
          out[written] := MarketRow(isBuy, e);
          written := written + 1;
        }
      }
      assert events[..|events|] == events;
    }

    /** `match_market_order`: the handler reports the first `maxLen` trades and sums the fees; the book is
        matched in full whatever `maxLen` is. */
    method MatchMarketOrder(isBuy: bool, volume: real, takerIsAgent: bool, out: array<Row>, maxLen: int)
      returns (written: nat, feeTotal: real)
      requires maxLen <= out.Length
      modifies `bids, `asks, `idxMap, out
      ensures var w := M.Walk(old(State()), !isBuy, volume, takerIsAgent);
        var events := AllEvents(rates, isBuy, takerIsAgent, w.trades);
        && State() == w.book
        && written == |Take(Rows(isBuy, events), maxLen)| <= out.Length
        && out[..written] == Take(Rows(isBuy, events), maxLen)
        && written == (if maxLen <= 0 then 0 else if maxLen < |Rows(isBuy, events)| then maxLen else |Rows(isBuy, events)|)
        && out[..written] == Rows(isBuy, events)[..written]
        && feeTotal == Fees(events)
      ensures forall i | written <= i < out.Length :: out[i] == old(out[i])
      ensures old(Valid()) ==> Valid() && (Exact(old(State())) ==> Exact(State()))
    {
      if Sound(State()) {
        M.WalkKeeps(State(), !isBuy, volume, takerIsAgent);
      }
      var events, trades, fullExec := MatchLogic(isBuy, volume, takerIsAgent);
      written, feeTotal := Handle(events, isBuy, out, maxLen);
      TakeIs(Rows(isBuy, events), maxLen);
    }

    /** The body of the inner limit loop: one trade with the front order of the level, written as row `at`. */
    method TakeFront(isBuy: bool, price: int, remain: real, takerIsAgent: bool, out: array<Row>, at: nat)
      returns (tradeVol: real, fee: real)
      requires price in SideOf(!isBuy) && SideOf(!isBuy)[price] != [] && at < out.Length
      modifies `bids, `asks, `idxMap, out
      ensures var s := old(State());
        var queue := s.Side(!isBuy)[price];
        && tradeVol == L.FillOf(queue[0], remain)
        && P.FrontTaken(s, !isBuy, price, remain, State())
        && Tally(isBuy, feeModel, takerIsAgent, [M.TradeWith(price, queue[0], tradeVol)], [out[at]], fee)
      ensures out[..] == old(out[..])[at := out[at]]
    {
      var queue := SideOf(!isBuy)[price];
      var maker := queue[0];
      tradeVol := if maker.volume < remain then maker.volume else remain;
      ghost var trade := M.TradeWith(price, maker, tradeVol);
      assert [trade][1..] == [] && LimitRows(isBuy, [trade]) == [LimitRow(isBuy, trade)];
      TallyOf(isBuy, feeModel, takerIsAgent, [trade]);
      maker := M.Reduced(maker, tradeVol);
      out[at] := Row(price as real, tradeVol, Flag(isBuy), Flag(maker.isAgent), maker.id);
      fee := (if takerIsAgent then feeModel.takerFee else 0.0) * tradeVol
        + (if maker.isAgent then feeModel.makerFee else 0.0) * tradeVol;
      if maker.volume <= L.TINY {
        StoreQueue(!isBuy, price, queue[1..]);
        idxMap := idxMap - {maker.id};
      } else {
        StoreQueue(!isBuy, price, [maker] + queue[1..]);
      }
    }

    /** The inner loop of `match_limit_order` over the best level; rows are written behind the first ones. */
    method LimitLevel(isBuy: bool, price: int, volume: real, takerIsAgent: bool, out: array<Row>, start: nat, maxLen: int,
        ghost was: seq<Row>, ghost first: seq<Row>)
      returns (remain: real, written: nat, fees: real, ghost rows: seq<Row>, ghost done: seq<M.Trade>)
      requires price in SideOf(!isBuy) && start <= maxLen <= out.Length
      requires |was| == out.Length && |first| == start && out[..] == Over(was, first)
      modifies `bids, `asks, `idxMap, out
      ensures LevelSoFar(LevelRun(old(State()), isBuy, price, volume, maxLen - start, takerIsAgent, feeModel, was, first),
                State(), remain, done, rows, fees, out[..])
      ensures SideOf(!isBuy)[price] == [] || remain <= L.TINY || written >= maxLen
      ensures written == start + |done| == start + |rows| <= maxLen
    {
      var hit := !isBuy;
      remain, written, fees, rows, done := volume, start, 0.0, [], [];
      ghost var run := LevelRun(State(), isBuy, price, volume, maxLen - start, takerIsAgent, feeModel, was, first);
      LevelStart(run);
      while remain > L.TINY && SideOf(hit)[price] != [] && written < maxLen
        invariant LevelSoFar(run, State(), remain, done, rows, fees, out[..])
        invariant written == start + |done| == start + |rows| <= maxLen
        decreases maxLen - written
      {
        ghost var now, buffer, maker := State(), out[..], SideOf(hit)[price][0];
        var tradeVol, fee := TakeFront(isBuy, price, remain, takerIsAgent, out, written);
        LevelNext(run, now, remain, done, rows, fees, buffer, State(), tradeVol, out[written], fee);
        remain, fees := remain - tradeVol, fees + fee;
        done, rows := done + [M.TradeWith(price, maker, tradeVol)], rows + [out[written]];
        written := written + 1;
      }
    }

    /** The body of the outer limit loop: the best level is matched, and erased if nothing is left of it. */
    method LimitBest(isBuy: bool, price: int, volume: real, takerIsAgent: bool, out: array<Row>, start: nat, maxLen: int,
        ghost was: seq<Row>, ghost first: seq<Row>)
      returns (remain: real, written: nat, fees: real, ghost rows: seq<Row>)
      requires SideOf(!isBuy) != map[] && price == Best(!isBuy, SideOf(!isBuy)) && start <= maxLen <= out.Length
      requires |was| == out.Length && |first| == start && out[..] == Over(was, first)
      modifies `bids, `asks, `idxMap, out
      ensures var s := old(State());
        var r := P.LimitBest(s, !isBuy, volume, maxLen - start);
        && State() == P.AfterBest(s, !isBuy, r)
        && remain == r.remain
        && written == start + |r.trades| == start + |rows| <= maxLen
        && Tally(isBuy, feeModel, takerIsAgent, r.trades, rows, fees)
      ensures out[..] == Over(was, first + rows)
    {
      ghost var s, done := State(), [];
      remain, written, fees, rows, done := LimitLevel(isBuy, price, volume, takerIsAgent, out, start, maxLen, was, first);
      P.LimitBestEnds(s, !isBuy, volume, maxLen - start, State(), remain, done);
      assert Open(0, LEVEL);
      EraseIfEmpty(!isBuy, price);
    }

    /** The outer loop of `match_limit_order`, entered when there is something to match. */
    method LimitLoop(isBuy: bool, volume: real, limitPx: int, takerIsAgent: bool, out: array<Row>, maxLen: int)
      returns (written: nat, feeTotal: real, ghost rows: seq<Row>)
      requires 0 <= maxLen <= out.Length
      modifies `bids, `asks, `idxMap, out
      ensures var w := L.LimitWalk(old(State()), !isBuy, limitPx, volume, maxLen);
        && State() == w.book
        && written == |w.trades| == |rows| <= out.Length
        && Tally(isBuy, feeModel, takerIsAgent, w.trades, rows, feeTotal)
      ensures out[..] == Over(old(out[..]), rows)
    {
      var hit := !isBuy;
      var remain := volume;
      written, feeTotal, rows := 0, 0.0, [];
      ghost var run, done := SideRun(State(), isBuy, limitPx, volume, maxLen, takerIsAgent, feeModel, out[..]), [];
      SideStart(run);
      while remain > L.TINY && written < maxLen
        invariant SideSoFar(run, State(), remain, done, rows, feeTotal, out[..])
        invariant written == |done| == |rows| <= maxLen
        decreases |SideOf(hit)|, if remain > L.TINY && written < maxLen then 1 else 0
      {
        if SideOf(hit) == map[] {
          break;
        }
        var price := Best(hit, SideOf(hit));
        if Before(hit, limitPx, price) {
          break;
        }
        ghost var now, buffer, r := State(), out[..], P.LimitBest(State(), hit, remain, maxLen - written);
        SideBuffer(run, now, remain, done, rows, feeTotal, buffer);
        var left, next, fees, more := LimitBest(isBuy, price, remain, takerIsAgent, out, written, maxLen, run.was, rows);
        SideNext(run, now, remain, done, rows, feeTotal, buffer, r, State(), more, fees);
        remain, written, feeTotal := left, next, feeTotal + fees;
        done, rows := done + r.trades, rows + more;
      }
      SideEnd(run, State(), remain, done, rows, feeTotal, out[..]);
    }

    /** `match_limit_order`. */
    method MatchLimitOrder(isBuy: bool, volume: real, limitPx: int, takerIsAgent: bool, out: array<Row>, maxLen: int)
      returns (written: nat, feeTotal: real)
      requires maxLen <= out.Length
      modifies `bids, `asks, `idxMap, out
      ensures var w := L.LimitWalk(old(State()), !isBuy, limitPx, volume, maxLen);
        && State() == w.book
        && written == |w.trades| <= out.Length
        && out[..written] == LimitRows(isBuy, w.trades)
        && feeTotal == LimitFee(feeModel, takerIsAgent, w.trades)
      ensures forall i | written <= i < out.Length :: out[i] == old(out[i])
      ensures old(Valid()) ==> Valid()
    {
      if Sound(State()) {
        L.LimitWalkKeeps(State(), !isBuy, limitPx, volume, maxLen);
      }
      if volume <= 0.0 || maxLen <= 0 {
        return 0, 0.0;
      }
      if SideOf(!isBuy) == map[] || Before(!isBuy, limitPx, Best(!isBuy, SideOf(!isBuy))) {
        return 0, 0.0;
      }
      ghost var w := L.LimitWalk(State(), !isBuy, limitPx, volume, maxLen);
      ghost var rows, was := [], out[..];
      written, feeTotal, rows := LimitLoop(isBuy, volume, limitPx, takerIsAgent, out, maxLen);
      TallyIs(isBuy, feeModel, takerIsAgent, w.trades, rows, feeTotal);
      OverIs(was, rows, out[..]);
      assert out[..written] == out[..][..written];
      forall i | written <= i < out.Length ensures out[i] == old(out[i]) {
        assert out[..][written..][i - written] == was[written..][i - written];
      }
    }

    // ---------- time-to-live ----------

    /** Scans one side level by level for the first order with this id. */
    method ScanFor(isBuy: bool, id: int) returns (found: bool, price: int, position: nat)
      ensures found ==> price in SideOf(isBuy) && position < |SideOf(isBuy)[price]| && SideOf(isBuy)[price][position].id == id
      ensures !found ==> T.Lacks(SideOf(isBuy), id)
    {
      var prices := InOrder(isBuy, SideOf(isBuy).Keys);
      for i := 0 to |prices|
        invariant forall k, j | 0 <= k < i && 0 <= j < |SideOf(isBuy)[prices[k]]| :: SideOf(isBuy)[prices[k]][j].id != id
      {
        var queue := SideOf(isBuy)[prices[i]];
        for j := 0 to |queue|
          invariant forall k | 0 <= k < j :: queue[k].id != id
        {
          if queue[j].id == id {
            return true, prices[i], j;
          }
        }
      }
      forall p, j | p in SideOf(isBuy) && 0 <= j < |SideOf(isBuy)[p]| ensures SideOf(isBuy)[p][j].id != id {
        assert p in prices;
      }
      return false, 0, 0;
    }

    /** `set_order_ttl`. */
    method SetOrderTtl(orderId: int, ttlSteps: int) returns (found: bool)
      requires Valid()
      modifies `bids, `asks
      ensures State() == T.SetTtl(old(State()), orderId, ttlSteps)
      ensures found <==> Resting(old(State()), orderId)
      ensures Valid() && (Exact(old(State())) ==> Exact(State()))
    {
      T.SetTtlKeeps(State(), orderId, ttlSteps);
      var price, position;
      found, price, position := ScanFor(true, orderId);
      var isBuy := true;
      if !found {
        isBuy := false;
        found, price, position := ScanFor(false, orderId);
      }
      if found {
        var queue := SideOf(isBuy)[price];
        T.SetTtlAtPlace(State(), isBuy, price, position, ttlSteps);
        assert RestingAt(State(), isBuy, price, orderId);
        StoreQueue(isBuy, price, queue[position := queue[position].(ttl := ttlSteps)]);
      } else {
        T.SetTtlOfNone(State(), orderId, ttlSteps);
      }
    }

    /** `scan_side`: counts every order of a side down and lists those that reach zero, calling back for each. */
    method ScanSide(isBuy: bool) returns (toRemove: seq<R.Item>, called: seq<Order>)
      modifies `bids, `asks
      ensures State() == old(State()).WithSide(isBuy, SideOf(isBuy))
      ensures T.Scan(SideOf(isBuy), toRemove, called) ==
        T.ScanAt(isBuy, old(SideOf(isBuy)), InOrder(isBuy, old(SideOf(isBuy)).Keys))
    {
      ghost var s := State();
      var prices := InOrder(isBuy, SideOf(isBuy).Keys);
      toRemove, called := [], [];
      assert forall k | 0 <= k < |prices| :: prices[k] in prices;
      T.ScanSoFarStart(isBuy, SideOf(isBuy), prices);
      for i := 0 to |prices|
        invariant T.ScanSoFar(isBuy, s.Side(isBuy), prices, i, SideOf(isBuy), toRemove, called)
        invariant SideOf(!isBuy) == s.Side(!isBuy)
        invariant forall k | 0 <= k < |prices| :: prices[k] in SideOf(isBuy)
      {
        T.ScanSoFarStep(isBuy, s.Side(isBuy), prices, i, SideOf(isBuy), toRemove, called);
        var items, orders := ScanLevel(isBuy, prices[i]);
        toRemove, called := toRemove + items, called + orders;
      }
      T.ScanSoFarEnd(isBuy, s.Side(isBuy), prices, SideOf(isBuy), toRemove, called);
    }

    /** The inner loop of `scan_side`. */
    method ScanLevel(isBuy: bool, price: int) returns (items: seq<R.Item>, called: seq<Order>)
      requires price in SideOf(isBuy)
      modifies `bids, `asks
      ensures SideOf(isBuy) == old(SideOf(isBuy))[price := T.AgedQueue(old(SideOf(isBuy))[price])]
      ensures SideOf(!isBuy) == old(SideOf(!isBuy))
      ensures items == T.Expiring(isBuy, M.Tag(price, old(SideOf(isBuy))[price]))
      ensures called == T.Called(M.Tag(price, old(SideOf(isBuy))[price]))
    {
      var queue := SideOf(isBuy)[price];
      var now := queue;
      items, called := [], [];
      T.QueueScanStart(isBuy, price, queue);
      for j := 0 to |queue|
        invariant T.QueueScan(isBuy, price, queue, j, now, items, called)
        invariant State() == old(State())
      {
        T.QueueScanStep(isBuy, price, queue, j, now, items, called);
        var o := now[j];
        ghost var listed, calls := items, called;
        if o.ttl > 0 {
          o := o.(ttl := o.ttl - 1);
          now := now[j := o];
          if o.ttl == 0 {
            called := called + [o];
            items := items + [R.Item(isBuy, price, o.id)];
          }
        }
        assert o == T.Aged(queue[j]) && now == now[j := o];
        assert listed + [] == listed && calls + [] == calls;
      }
      T.QueueScanEnd(isBuy, price, queue, now, items, called);
      assert SideOf(isBuy) == State().Side(isBuy);
      StoreQueue(isBuy, price, now);
    }

    /** Removes listed orders one by one, in the order of the list. */
    method RemoveListed(items: seq<R.Item>)
      modifies `bids, `asks, `idxMap
      ensures State() == R.RemoveAll(old(State()), items)
    {
      for i := 0 to |items|
        invariant R.RemoveAll(State(), items[i..]) == R.RemoveAll(old(State()), items)
      {
        assert items[i..][1..] == items[i + 1..];
        RemoveOrder(items[i].isBuy, items[i].price, items[i].id);
      }
      assert items[|items|..] == [];
    }

    /** `decay_ttl_and_cancel`; the calls of `on_cancel` are returned in order. */
    method DecayTtlAndCancel() returns (cancelled: nat, called: seq<Order>)
      requires Valid()
      modifies `bids, `asks, `idxMap
      ensures State() == T.Decay(old(State()))
      ensures called == T.AllCalled(old(State())) && cancelled == |called|
      ensures T.Size(State()) == T.Size(old(State())) - cancelled
      ensures Valid() && (Exact(old(State())) ==> Exact(State()))
    {
      T.DecayEffect(State());
      T.DecayCancels(State());
      T.ScanAtAll(true, bids);
      T.ScanAtAll(false, asks);
      var buys, calledBuys := ScanSide(true);
      var sells, calledSells := ScanSide(false);
      called := calledBuys + calledSells;
      cancelled := |called|;
      RemoveListed(buys + sells);
    }

    // ---------- random cancellation and pruning ----------

    /** `cancel_random_public_orders`: reservoir sampling over the public orders of a side, with arbitrary
        draws in the range the source draws from, and then removal of the sampled orders. */
    method CancelRandomPublicOrders(isBuySide: bool, n: int) returns (ghost sample: seq<R.Item>, ghost draws: seq<nat>)
      requires Valid()
      modifies `bids, `asks, `idxMap
      ensures n <= 0 ==> sample == []
      ensures R.ValidSample(old(State()), isBuySide, n, sample)
      ensures n > 0 ==> R.Drawn(M.Flat(isBuySide, old(State()).Side(isBuySide)), isBuySide, n, sample, draws)
      ensures State() == R.RemoveAll(old(State()), sample)
      ensures Valid() && (Exact(old(State())) ==> Exact(State()))
    {
      sample, draws := [], [];
      if n <= 0 {
        return;
      }
      R.SideIsDistinct(State(), isBuySide);
      var picked;
      picked, draws := SampleSide(isBuySide, n, SideOf(isBuySide));
      sample := picked;
      R.CancelEffect(State(), isBuySide, n, picked);
      RemoveListed(picked);
    }

    /** The reservoir over all levels of a side; the draws are recorded in order. */
    method SampleSide(isBuySide: bool, n: int, levels: Levels) returns (picked: seq<R.Item>, ghost draws: seq<nat>)
      requires n > 0 && M.DistinctOffers(M.Flat(isBuySide, levels))
      ensures R.IsSample(M.Flat(isBuySide, levels), isBuySide, n, picked)
      ensures R.Drawn(M.Flat(isBuySide, levels), isBuySide, n, picked, draws)
    {
      var prices := InOrder(isBuySide, levels.Keys);
      ghost var offers := M.Flat(isBuySide, levels);
      ghost var k: nat := 0;
      var seen := 0;
      picked, draws := [], [];
      M.StandsAtStart(isBuySide, levels);
      R.SamplingStart(offers, isBuySide, n);
      for i := 0 to |prices|
        invariant M.StandsAt(isBuySide, levels, prices, i, k)
        invariant R.Sampling(offers, isBuySide, n, k, picked, seen, draws)
      {
        M.StandsAtNext(isBuySide, levels, prices, i, k);
        picked, seen, draws := SampleLevel(isBuySide, n, prices[i], levels[prices[i]], picked, seen, offers, k, draws);
        k := k + |levels[prices[i]]|;
      }
      M.StandsAtEnd(isBuySide, levels, prices, k);
      R.SamplingEnd(offers, isBuySide, n, picked, seen, draws);
    }

    /** The inner loop of the reservoir: the orders of one level are the offers from k on. */
    method SampleLevel(isBuySide: bool, n: int, price: int, queue: Queue, picked0: seq<R.Item>, seen0: int,
        ghost offers: seq<M.Offer>, ghost k: nat, ghost draws0: seq<nat>)
      returns (picked: seq<R.Item>, seen: int, ghost draws: seq<nat>)
      requires R.Sampling(offers, isBuySide, n, k, picked0, seen0, draws0)
      requires k + |queue| <= |offers| && forall j | 0 <= j < |queue| :: offers[k + j] == M.Offer(price, queue[j])
      ensures R.Sampling(offers, isBuySide, n, k + |queue|, picked, seen, draws)
    {
      picked, seen, draws := picked0, seen0, draws0;
      for j := 0 to |queue|
        invariant R.Sampling(offers, isBuySide, n, k + j, picked, seen, draws)
      {
        var ord := queue[j];
        ghost var drawn := 0;
        assert offers[k + j] == M.Offer(price, ord);
        ghost var before, seenBefore, drawsBefore := picked, seen, draws;
        if !ord.isAgent {
          if |picked| < n {
            picked := picked + [R.Item(isBuySide, price, ord.id)];
          } else {
            seen := seen + 1;
            var draw: int :| 0 <= draw <= seen;
            drawn, draws := draw, draws + [draw];
            if draw < n {
              picked := picked[draw := R.Item(isBuySide, price, ord.id)];
            }
          }
          seen := seen + 1;
        }
        R.SamplingStep(offers, isBuySide, n, k + j, before, seenBefore, drawsBefore, drawn, picked, seen, draws);
      }
    }

    /** `prune_stale_orders`. */
    method PruneStaleOrders(currentStep: int, maxAge: int)
      modifies `bids, `asks
      ensures State() == R.Prune(old(State()), currentStep, maxAge)
      ensures old(Valid()) ==> Valid()
    {
      if Sound(State()) {
        R.PruneKeeps(State(), currentStep, maxAge);
      }
      PruneSide(true, currentStep, maxAge);
      PruneSide(false, currentStep, maxAge);
    }

    method PruneSide(isBuy: bool, currentStep: int, maxAge: int)
      modifies `bids, `asks
      ensures State() ==
        old(State()).WithSide(isBuy, R.FilterLevels(old(SideOf(isBuy)), R.Younger(currentStep, maxAge)))
    {
      ghost var s := State();
      var keep := R.Younger(currentStep, maxAge);
      var prices := InOrder(isBuy, SideOf(isBuy).Keys);
      R.FilterAtAll(SideOf(isBuy), prices, keep);
      for i := 0 to |prices|
        invariant State() == s.WithSide(isBuy, SideOf(isBuy))
        invariant R.FilterAt(SideOf(isBuy), prices[i..], keep) == R.FilterAt(s.Side(isBuy), prices, keep)
      {
        assert prices[i..][1..] == prices[i + 1..];
        PruneLevel(isBuy, prices[i], keep);
      }
      assert prices[|prices|..] == [];
    }

    /** `remove_if` on one level, and the erasure of the level if nothing is left. */
    method PruneLevel(isBuy: bool, price: int, keep: Order -> bool)
      modifies `bids, `asks
      ensures State() == old(State()).WithSide(isBuy,
        Put(old(SideOf(isBuy)), price, R.Filter(QueueAt(old(SideOf(isBuy)), price), keep)))
    {
      if price in SideOf(isBuy) {
        ghost var s, queue := State(), R.Filter(SideOf(isBuy)[price], keep);
        P.AfterLevel(s, isBuy, price, queue, idxMap);
        StoreQueue(isBuy, price, R.Filter(SideOf(isBuy)[price], keep));
        EraseIfEmpty(isBuy, price);
      } else {
        assert SideOf(isBuy) - {price} == SideOf(isBuy);
      }
    }

    // ---------- queries ----------

    method ContainsOrder(orderId: int) returns (present: bool)
      ensures present <==> orderId in idxMap
      ensures Exact(State()) ==> (present <==> Resting(State(), orderId))
    {
      IndexMeansResting(State(), orderId);
      present := orderId in idxMap;
    }

    /** `get_queue_position`: the position as stored, in 32 bits, or the largest 32-bit number. */
    method GetQueuePosition(orderId: int) returns (position: nat)
      ensures position == if orderId in idxMap then idxMap[orderId].position % 0x1_0000_0000 else NOT_FOUND
      ensures Exact(State()) ==> forall isBuy, price, j ::
        price in SideOf(isBuy) && 0 <= j < |SideOf(isBuy)[price]| && SideOf(isBuy)[price][j].id == orderId ==>
          position == j % 0x1_0000_0000
      ensures Exact(State()) && !Resting(State(), orderId) ==> position == NOT_FOUND
    {
      IndexMeansResting(State(), orderId);
      if Exact(State()) {
        forall isBuy, price, j | price in SideOf(isBuy) && 0 <= j < |SideOf(isBuy)[price]|
          ensures SideOf(isBuy)[price][j].id in idxMap && idxMap[SideOf(isBuy)[price][j].id].position == j
        {
          assert QueueExact(State().Side(isBuy)[price], idxMap);
        }
      }
      position := if orderId in idxMap then idxMap[orderId].position % 0x1_0000_0000 else NOT_FOUND;
    }

    method GetBestBid() returns (price: int)
      ensures bids == map[] ==> price == -1
      ensures bids != map[] ==> price in bids && forall p | p in bids :: p <= price
    {
      price := if bids == map[] then -1 else Best(true, bids);
    }

    method GetBestAsk() returns (price: int)
      ensures asks == map[] ==> price == -1
      ensures asks != map[] ==> price in asks && forall p | p in asks :: p >= price
    {
      price := if asks == map[] then -1 else Best(false, asks);
    }
  }
}
