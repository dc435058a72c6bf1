/** What the matchers report: the callback log of the internal matcher, the rows and fees that the
    market handler makes of it, and the rows and fees of the limit matcher. */
module Report {
  import opened Sequences
  import opened BookState
  import opened Reals
  import opened Folded
  import M = Market

  const PRICE_SCALE := 100.0

  /** TAKER_FEE, MAKER_FEE and SLIP_K. */
  datatype Rates = Rates(takerFee: real, makerFee: real, slip: real)

  datatype FeeModel = FeeModel(makerFee: real, takerFee: real, slip: real)

  /** One call of the trade callback; prices -1 and -2 mark taker and maker fees. */
  datatype Event = Event(px: int, amount: real, makerId: OrderId, makerIsAgent: bool)

  datatype Row = Row(price: real, volume: real, isBuy: int, isSelf: int, id: int)

  /** Price paid after linear slippage, in money. */
  function Paid(rates: Rates, takerIsBuy: bool, price: int): real {
    price as real / PRICE_SCALE * (1.0 + rates.slip * (if takerIsBuy then 1.0 else -1.0))
  }

  function Notional(rates: Rates, takerIsBuy: bool, t: M.Trade): real {
    t.volume * Paid(rates, takerIsBuy, t.price)
  }

  function TradeEvent(t: M.Trade): Event {
    Event(t.price, t.volume, t.makerId, t.makerIsAgent)
  }

  function TakerFee(rates: Rates, takerIsBuy: bool, t: M.Trade): Event {
    Event(-1, Notional(rates, takerIsBuy, t) * rates.takerFee, t.makerId, t.makerIsAgent)
  }

  function MakerFee(rates: Rates, takerIsBuy: bool, t: M.Trade): Event {
    Event(-2, Notional(rates, takerIsBuy, t) * rates.makerFee, t.makerId, t.makerIsAgent)
  }

  function EventsOf(rates: Rates, takerIsBuy: bool, takerIsAgent: bool, t: M.Trade): seq<Event> {
    [TradeEvent(t)]
    + (if takerIsAgent then [TakerFee(rates, takerIsBuy, t)] else [])
    + (if t.makerIsAgent then [MakerFee(rates, takerIsBuy, t)] else [])
  }

  function AllEvents(rates: Rates, takerIsBuy: bool, takerIsAgent: bool, trades: seq<M.Trade>): seq<Event> {
    if trades == [] then []
    else EventsOf(rates, takerIsBuy, takerIsAgent, trades[0]) + AllEvents(rates, takerIsBuy, takerIsAgent, trades[1..])
  }

  lemma EventsOfOne(rates: Rates, takerIsBuy: bool, takerIsAgent: bool, t: M.Trade)
    ensures AllEvents(rates, takerIsBuy, takerIsAgent, [t]) == EventsOf(rates, takerIsBuy, takerIsAgent, t)
  {
    assert AllEvents(rates, takerIsBuy, takerIsAgent, [t][1..]) == [];
  }

  lemma {:induction false} AllEventsOfConcat(
      rates: Rates, takerIsBuy: bool, takerIsAgent: bool, a: seq<M.Trade>, b: seq<M.Trade>)
    ensures AllEvents(rates, takerIsBuy, takerIsAgent, a + b) ==
            AllEvents(rates, takerIsBuy, takerIsAgent, a) + AllEvents(rates, takerIsBuy, takerIsAgent, b)
  {
    if a == [] {
      assert a + b == b;
    } else {
      AllEventsOfConcat(rates, takerIsBuy, takerIsAgent, a[1..], b);
      assert (a + b)[1..] == a[1..] + b;
      Associative(EventsOf(rates, takerIsBuy, takerIsAgent, a[0]),
        AllEvents(rates, takerIsBuy, takerIsAgent, a[1..]), AllEvents(rates, takerIsBuy, takerIsAgent, b));
    }
  }

  // ---------- the market handler ----------

  function Flag(b: bool): int {
    if b then 1 else 0
  }

  function MarketRow(isBuy: bool, e: Event): Row {
    Row(e.px as real / PRICE_SCALE, e.amount, Flag(isBuy), Flag(e.makerIsAgent), e.makerId)
  }

  /** The rows the handler would write with unlimited room. */
  function Rows(isBuy: bool, events: seq<Event>): seq<Row> {
    if events == [] then []
    else if events[0].px < 0 then Rows(isBuy, events[1..])
    else [MarketRow(isBuy, events[0])] + Rows(isBuy, events[1..])
  }

  function Fees(events: seq<Event>): real {
    if events == [] then 0.0
    else (if events[0].px < 0 then events[0].amount else 0.0) + Fees(events[1..])
  }

  lemma {:induction false} RowsOfConcat(isBuy: bool, a: seq<Event>, b: seq<Event>)
    ensures Rows(isBuy, a + b) == Rows(isBuy, a) + Rows(isBuy, b)
  {
    if a == [] {
      assert a + b == b;
    } else {
      RowsOfConcat(isBuy, a[1..], b);
      assert (a + b)[1..] == a[1..] + b;
      assert (a + b)[0] == a[0];
      Associative([MarketRow(isBuy, a[0])], Rows(isBuy, a[1..]), Rows(isBuy, b));
    }
  }

  lemma {:induction false} FeesOfConcat(a: seq<Event>, b: seq<Event>)
    ensures Fees(a + b) == Fees(a) + Fees(b)
  {
    if a == [] {
      assert a + b == b;
    } else {
      FeesOfConcat(a[1..], b);
      assert (a + b)[1..] == a[1..] + b;
      assert (a + b)[0] == a[0];
    }
  }

  lemma HandlerOfConcat(isBuy: bool, a: seq<Event>, b: seq<Event>)
    ensures Rows(isBuy, a + b) == Rows(isBuy, a) + Rows(isBuy, b)
    ensures Fees(a + b) == Fees(a) + Fees(b)
  {
    RowsOfConcat(isBuy, a, b);
    FeesOfConcat(a, b);
  }

  function Take<T>(s: seq<T>, n: int): seq<T> {
    if n <= 0 then [] else if n < |s| then s[..n] else s
  }

  lemma TakeIs<T>(s: seq<T>, n: int)
    ensures |Take(s, n)| == if n <= 0 then 0 else if n < |s| then n else |s|
    ensures Take(s, n) == s[..|Take(s, n)|]
  {
  }

  function TradeRow(isBuy: bool, t: M.Trade): Row {
    Row(t.price as real / PRICE_SCALE, t.volume, Flag(isBuy), Flag(t.makerIsAgent), t.makerId)
  }

  function TradeRows(isBuy: bool, trades: seq<M.Trade>): (r: seq<Row>)
    ensures |r| == |trades| && forall i | 0 <= i < |r| :: r[i] == TradeRow(isBuy, trades[i])
  {
    seq(|trades|, i requires 0 <= i < |trades| => TradeRow(isBuy, trades[i]))
  }

  /** The fee of one trade: the agent side pays its rate on the slipped notional. */
  function FeeOf(rates: Rates, takerIsBuy: bool, takerIsAgent: bool, t: M.Trade): real {
    Notional(rates, takerIsBuy, t) *
    ((if takerIsAgent then rates.takerFee else 0.0) + (if t.makerIsAgent then rates.makerFee else 0.0))
  }

  function FeeTotal(rates: Rates, takerIsBuy: bool, takerIsAgent: bool, trades: seq<M.Trade>): real {
    if trades == [] then 0.0
    else FeeOf(rates, takerIsBuy, takerIsAgent, trades[0]) + FeeTotal(rates, takerIsBuy, takerIsAgent, trades[1..])
  }

  /** The trades with agent makers. */
  function WithAgents(trades: seq<M.Trade>): seq<M.Trade> {
    if trades == [] then []
    else (if trades[0].makerIsAgent then [trades[0]] else []) + WithAgents(trades[1..])
  }

  /** What a trade is worth at its own price, in money. */
  function Plain(t: M.Trade): real {
    t.volume * t.price as real / 100.0
  }

  function Turnover(trades: seq<M.Trade>): real {
    if trades == [] then 0.0 else Plain(trades[0]) + Turnover(trades[1..])
  }

  lemma TurnoverOfAgents(trades: seq<M.Trade>)
    requires trades != []
    ensures Turnover(WithAgents(trades)) ==
      (if trades[0].makerIsAgent then Plain(trades[0]) else 0.0) + Turnover(WithAgents(trades[1..]))
  {
    assert trades[0].makerIsAgent ==> WithAgents(trades)[1..] == WithAgents(trades[1..]);
    assert !trades[0].makerIsAgent ==> WithAgents(trades) == WithAgents(trades[1..]);
  }

  lemma ProductOfSum(factor: real, a: real, b: real)
    ensures Product(factor, a + b) == Product(factor, a) + Product(factor, b)
  {
  }

  lemma ProductOfChoice(choose: bool, rate: real, a: real)
    ensures Product(if choose then rate else 0.0, a) == Product(rate, if choose then a else 0.0)
  {
  }

  /** Slippage moves the notional against the taker: up for a buyer, down for a seller, by the same part of it. */
  lemma SlippedNotional(rates: Rates, takerIsBuy: bool, t: M.Trade)
    ensures var plain := t.volume * t.price as real / 100.0;
      && Notional(rates, takerIsBuy, t) == (if takerIsBuy then plain + rates.slip * plain else plain - rates.slip * plain)
      && (rates.slip >= 0.0 && plain >= 0.0 ==>
            if takerIsBuy then Notional(rates, takerIsBuy, t) >= plain else Notional(rates, takerIsBuy, t) <= plain)
  {
    var money, share := t.price as real / 100.0, rates.slip * (if takerIsBuy then 1.0 else -1.0);
    var plain := t.volume * money;
    assert plain == t.volume * t.price as real / 100.0;
    assert t.volume * (money * (1.0 + share)) == plain + share * plain;
    assert rates.slip >= 0.0 && plain >= 0.0 ==> rates.slip * plain >= 0.0;
  }

  function Slipped(rates: Rates, takerIsBuy: bool): real {
    if takerIsBuy then 1.0 + rates.slip else 1.0 - rates.slip
  }

  lemma Regroup(factor: real, plain: real, taker: real, maker: real)
    ensures (factor * plain) * (taker + maker) == Product(factor, Product(taker, plain) + Product(maker, plain))
  {
    assert plain * (taker + maker) == taker * plain + maker * plain;
    assert (factor * plain) * (taker + maker) == factor * (plain * (taker + maker));
  }

  lemma FeeOfTrade(rates: Rates, takerIsBuy: bool, takerIsAgent: bool, t: M.Trade)
    ensures FeeOf(rates, takerIsBuy, takerIsAgent, t) ==
      Product(Slipped(rates, takerIsBuy),
        Product(if takerIsAgent then rates.takerFee else 0.0, Plain(t)) +
        Product(rates.makerFee, if t.makerIsAgent then Plain(t) else 0.0))
  {
    SlippedNotional(rates, takerIsBuy, t);
    assert Notional(rates, takerIsBuy, t) == Slipped(rates, takerIsBuy) * Plain(t);
    Regroup(Slipped(rates, takerIsBuy), Plain(t),
      if takerIsAgent then rates.takerFee else 0.0, if t.makerIsAgent then rates.makerFee else 0.0);
    ProductOfChoice(t.makerIsAgent, rates.makerFee, Plain(t));
  }

  lemma Collect(factor: real, taker: real, maker: real, a: real, b: real, c: real, d: real)
    ensures Product(factor, Product(taker, a) + Product(maker, b)) + Product(factor, Product(taker, c) + Product(maker, d)) ==
      Product(factor, Product(taker, a + c) + Product(maker, b + d))
  {
    ProductOfSum(taker, a, c);
    ProductOfSum(maker, b, d);
    ProductOfSum(factor, Product(taker, a) + Product(maker, b), Product(taker, c) + Product(maker, d));
  }

  /** The fees of a market order: the taker's rate on its turnover and the maker's on its turnover with agents, both
      after slippage. */
  lemma {:induction false} FeeByTurnover(rates: Rates, takerIsBuy: bool, takerIsAgent: bool, trades: seq<M.Trade>)
    ensures FeeTotal(rates, takerIsBuy, takerIsAgent, trades) ==
      Product(Slipped(rates, takerIsBuy),
        Product(if takerIsAgent then rates.takerFee else 0.0, Turnover(trades)) +
        Product(rates.makerFee, Turnover(WithAgents(trades))))
  {
    if trades != [] {
      var t, rest := trades[0], trades[1..];
      FeeByTurnover(rates, takerIsBuy, takerIsAgent, rest);
      FeeOfTrade(rates, takerIsBuy, takerIsAgent, t);
      TurnoverOfAgents(trades);
      Collect(Slipped(rates, takerIsBuy), if takerIsAgent then rates.takerFee else 0.0, rates.makerFee,
        Plain(t), if t.makerIsAgent then Plain(t) else 0.0, Turnover(rest), Turnover(WithAgents(rest)));
    }
  }

  /** The trades at prices that are not taken for fee markers. */
  function Reported(trades: seq<M.Trade>): seq<M.Trade> {
    if trades == [] then []
    else (if trades[0].price >= 0 then [trades[0]] else []) + Reported(trades[1..])
  }

  /** The volume of the other trades. */
  function Mistaken(trades: seq<M.Trade>): real {
    if trades == [] then 0.0
    else (if trades[0].price >= 0 then 0.0 else trades[0].volume) + Mistaken(trades[1..])
  }

  lemma HandlerOfEvent(isBuy: bool, e: Event, kept: bool)
    ensures var events := if kept then [e] else [];
      && Rows(isBuy, events) == (if kept && e.px >= 0 then [MarketRow(isBuy, e)] else [])
      && Fees(events) == if kept && e.px < 0 then e.amount else 0.0
  {
  }

  lemma HandlerOfOneTrade(rates: Rates, isBuy: bool, takerIsAgent: bool, t: M.Trade)
    ensures Rows(isBuy, EventsOf(rates, isBuy, takerIsAgent, t)) == if t.price >= 0 then [TradeRow(isBuy, t)] else []
    ensures Fees(EventsOf(rates, isBuy, takerIsAgent, t)) ==
      (if t.price >= 0 then 0.0 else t.volume) + FeeOf(rates, isBuy, takerIsAgent, t)
  {
    var trade := [TradeEvent(t)];
    var taker := if takerIsAgent then [TakerFee(rates, isBuy, t)] else [];
    var maker := if t.makerIsAgent then [MakerFee(rates, isBuy, t)] else [];
    HandlerOfConcat(isBuy, trade + taker, maker);
    HandlerOfConcat(isBuy, trade, taker);
    HandlerOfEvent(isBuy, TradeEvent(t), true);
    HandlerOfEvent(isBuy, TakerFee(rates, isBuy, t), takerIsAgent);
    HandlerOfEvent(isBuy, MakerFee(rates, isBuy, t), t.makerIsAgent);
    FeeInParts(rates, isBuy, takerIsAgent, t);
  }

  lemma FeeInParts(rates: Rates, isBuy: bool, takerIsAgent: bool, t: M.Trade)
    ensures FeeOf(rates, isBuy, takerIsAgent, t) ==
      (if takerIsAgent then TakerFee(rates, isBuy, t).amount else 0.0) +
      (if t.makerIsAgent then MakerFee(rates, isBuy, t).amount else 0.0)
  {
  }

  /** Whatever the prices: the handler reports the trades at prices from zero up, once and in order, and
      collects the agents' fees and, as if they were fees, the volumes of all other trades. */
  lemma {:induction false} HandlerOfTrades(rates: Rates, isBuy: bool, takerIsAgent: bool, trades: seq<M.Trade>)
    ensures Rows(isBuy, AllEvents(rates, isBuy, takerIsAgent, trades)) == TradeRows(isBuy, Reported(trades))
    ensures Fees(AllEvents(rates, isBuy, takerIsAgent, trades)) ==
      FeeTotal(rates, isBuy, takerIsAgent, trades) + Mistaken(trades)
  {
    if trades != [] {
      var t, later := trades[0], trades[1..];
      HandlerOfOneTrade(rates, isBuy, takerIsAgent, t);
      HandlerOfTrades(rates, isBuy, takerIsAgent, later);
      HandlerOfConcat(isBuy, EventsOf(rates, isBuy, takerIsAgent, t), AllEvents(rates, isBuy, takerIsAgent, later));
      TradeRowsOfCons(isBuy, t, Reported(later));
    }
  }

  lemma TradeRowsOfCons(isBuy: bool, t: M.Trade, later: seq<M.Trade>)
    ensures TradeRows(isBuy, [t] + later) == [TradeRow(isBuy, t)] + TradeRows(isBuy, later)
  {
    assert ([t] + later)[1..] == later;
  }

  lemma {:induction false} ReportedIsAllIff(trades: seq<M.Trade>)
    ensures |Reported(trades)| <= |trades|
    ensures |Reported(trades)| == |trades| <==> forall i | 0 <= i < |trades| :: trades[i].price >= 0
    ensures (forall i | 0 <= i < |trades| :: trades[i].price >= 0) ==> Reported(trades) == trades && Mistaken(trades) == 0.0
  {
    if trades != [] {
      ReportedIsAllIff(trades[1..]);
      assert trades == [trades[0]] + trades[1..];
      assert forall i | 0 < i < |trades| :: trades[i] == trades[1..][i - 1];
    }
  }

  /** The report is complete if and only if no trade has a negative price, and the fees are the agents' if and
      only if the volumes traded at negative prices add up to nothing. */
  lemma HandlerIsRightExactly(rates: Rates, isBuy: bool, takerIsAgent: bool, trades: seq<M.Trade>)
    ensures Rows(isBuy, AllEvents(rates, isBuy, takerIsAgent, trades)) == TradeRows(isBuy, trades) <==>
      forall i | 0 <= i < |trades| :: trades[i].price >= 0
    ensures Fees(AllEvents(rates, isBuy, takerIsAgent, trades)) == FeeTotal(rates, isBuy, takerIsAgent, trades) <==>
      Mistaken(trades) == 0.0
    ensures (forall i | 0 <= i < |trades| :: trades[i].price >= 0) ==> Mistaken(trades) == 0.0
  {
    HandlerOfTrades(rates, isBuy, takerIsAgent, trades);
    ReportedIsAllIff(trades);
    assert |TradeRows(isBuy, Reported(trades))| == |Reported(trades)| && |TradeRows(isBuy, trades)| == |trades|;
  }

  /** An instance: a trade at price -1 goes unreported and its volume counts as a fee. */
  lemma NegativePriceIsTakenForAFee(rates: Rates, isBuy: bool, volume: real)
    ensures var events := AllEvents(rates, isBuy, false, [M.Trade(-1, volume, 7, false)]);
      Rows(isBuy, events) == [] && Fees(events) == volume
  {
    var t := M.Trade(-1, volume, 7, false);
    assert AllEvents(rates, isBuy, false, [t][1..]) == [];
    assert AllEvents(rates, isBuy, false, [t]) == [Event(-1, volume, 7, false)];
  }

  // ---------- the limit matcher ----------

  function LimitRow(isBuy: bool, t: M.Trade): Row {
    Row(t.price as real, t.volume, Flag(isBuy), Flag(t.makerIsAgent), t.makerId)
  }

  function LimitRows(isBuy: bool, trades: seq<M.Trade>): seq<Row> {
    if trades == [] then [] else [LimitRow(isBuy, trades[0])] + LimitRows(isBuy, trades[1..])
  }

  lemma {:induction false} LimitRowsOfConcat(isBuy: bool, a: seq<M.Trade>, b: seq<M.Trade>)
    ensures LimitRows(isBuy, a + b) == LimitRows(isBuy, a) + LimitRows(isBuy, b)
  {
    if a == [] {
      assert a + b == b;
    } else {
      LimitRowsOfConcat(isBuy, a[1..], b);
      assert (a + b)[1..] == a[1..] + b;
      assert (a + b)[0] == a[0];
      Associative([LimitRow(isBuy, a[0])], LimitRows(isBuy, a[1..]), LimitRows(isBuy, b));
    }
  }

  function LimitFee(fees: FeeModel, takerIsAgent: bool, trades: seq<M.Trade>): real {
    if trades == [] then 0.0
    else
      (if takerIsAgent then fees.takerFee else 0.0) * trades[0].volume
      + (if trades[0].makerIsAgent then fees.makerFee else 0.0) * trades[0].volume
      + LimitFee(fees, takerIsAgent, trades[1..])
  }

  lemma {:induction false} LimitFeeOfConcat(fees: FeeModel, takerIsAgent: bool, a: seq<M.Trade>, b: seq<M.Trade>)
    ensures LimitFee(fees, takerIsAgent, a + b) == LimitFee(fees, takerIsAgent, a) + LimitFee(fees, takerIsAgent, b)
  {
    if a == [] {
      assert a + b == b;
    } else {
      LimitFeeOfConcat(fees, takerIsAgent, a[1..], b);
      assert (a + b)[1..] == a[1..] + b;
      assert (a + b)[0] == a[0];
    }
  }

  /** A market row has the price in money and a limit row in ticks; otherwise the two report a trade alike. */
  lemma RowsOfTrade(isBuy: bool, t: M.Trade)
    ensures TradeRow(isBuy, t).price * 100.0 == LimitRow(isBuy, t).price == t.price as real
    ensures TradeRow(isBuy, t) == LimitRow(isBuy, t).(price := TradeRow(isBuy, t).price)
    ensures var row := LimitRow(isBuy, t);
      && row.volume == t.volume && row.id == t.makerId
      && (row.isBuy == 1 <==> isBuy) && (row.isBuy == 0 <==> !isBuy)
      && (row.isSelf == 1 <==> t.makerIsAgent) && (row.isSelf == 0 <==> !t.makerIsAgent)
  {
  }

  lemma TradedWithAgents(trades: seq<M.Trade>)
    requires trades != []
    ensures M.Traded(WithAgents(trades)) ==
      (if trades[0].makerIsAgent then trades[0].volume else 0.0) + M.Traded(WithAgents(trades[1..]))
  {
    assert trades[0].makerIsAgent ==> WithAgents(trades)[1..] == WithAgents(trades[1..]);
    assert !trades[0].makerIsAgent ==> WithAgents(trades) == WithAgents(trades[1..]);
  }

  lemma LimitFeeOfFirst(fees: FeeModel, takerIsAgent: bool, trades: seq<M.Trade>)
    requires trades != []
    ensures LimitFee(fees, takerIsAgent, trades) ==
      Product(if takerIsAgent then fees.takerFee else 0.0, trades[0].volume) +
      Product(fees.makerFee, if trades[0].makerIsAgent then trades[0].volume else 0.0) +
      LimitFee(fees, takerIsAgent, trades[1..])
  {
    ProductOfChoice(trades[0].makerIsAgent, fees.makerFee, trades[0].volume);
  }

  /** The fees of a limit order: the taker's rate on all it traded, and the maker's on what it traded with agents. */
  lemma {:induction false} LimitFeeByVolume(fees: FeeModel, takerIsAgent: bool, trades: seq<M.Trade>)
    ensures LimitFee(fees, takerIsAgent, trades) ==
      Product(if takerIsAgent then fees.takerFee else 0.0, M.Traded(trades)) +
      Product(fees.makerFee, M.Traded(WithAgents(trades)))
  {
    if trades != [] {
      LimitFeeByVolume(fees, takerIsAgent, trades[1..]);
      LimitFeeOfFirst(fees, takerIsAgent, trades);
      TradedWithAgents(trades);
      ProductOfSum(if takerIsAgent then fees.takerFee else 0.0, trades[0].volume, M.Traded(trades[1..]));
      ProductOfSum(fees.makerFee, if trades[0].makerIsAgent then trades[0].volume else 0.0,
        M.Traded(WithAgents(trades[1..])));
    }
  }

  /** A buffer whose first entries have been overwritten with these rows. */
  ghost function Over(was: seq<Row>, rows: seq<Row>): (now: seq<Row>) {
    rows + (if |rows| <= |was| then was[|rows|..] else [])
  }

  lemma OverNext(was: seq<Row>, rows: seq<Row>, row: Row)
    requires |rows| < |was|
    ensures |Over(was, rows)| == |was| && Over(was, rows)[|rows| := row] == Over(was, rows + [row])
  {
  }

  lemma OverIs(was: seq<Row>, rows: seq<Row>, now: seq<Row>)
    requires |rows| <= |was| && now == Over(was, rows)
    ensures |now| == |was| && now[..|rows|] == rows && now[|rows|..] == was[|rows|..]
  {
  }

  /** The rows and the fees that these trades account for. */
  ghost predicate Tally(isBuy: bool, fees: FeeModel, takerIsAgent: bool, trades: seq<M.Trade>, rows: seq<Row>, total: real) {
    forall x {:trigger Open(x, |trades|)} :: Open(x, |trades|) ==>
      rows == LimitRows(isBuy, trades) && total == LimitFee(fees, takerIsAgent, trades)
  }

  lemma TallyOf(isBuy: bool, fees: FeeModel, takerIsAgent: bool, trades: seq<M.Trade>)
    ensures Tally(isBuy, fees, takerIsAgent, trades, LimitRows(isBuy, trades), LimitFee(fees, takerIsAgent, trades))
  {
  }

  lemma TallyJoin(isBuy: bool, fees: FeeModel, takerIsAgent: bool,
      trades: seq<M.Trade>, rows: seq<Row>, total: real, more: seq<M.Trade>, rows': seq<Row>, total': real)
    requires Tally(isBuy, fees, takerIsAgent, trades, rows, total)
    requires Tally(isBuy, fees, takerIsAgent, more, rows', total')
    ensures Tally(isBuy, fees, takerIsAgent, trades + more, rows + rows', total + total')
  {
    assert Open(0, |trades|) && Open(0, |more|);
    LimitRowsOfConcat(isBuy, trades, more);
    LimitFeeOfConcat(fees, takerIsAgent, trades, more);
  }

  lemma TallyIs(isBuy: bool, fees: FeeModel, takerIsAgent: bool, trades: seq<M.Trade>, rows: seq<Row>, total: real)
    requires Tally(isBuy, fees, takerIsAgent, trades, rows, total)
    ensures rows == LimitRows(isBuy, trades) && total == LimitFee(fees, takerIsAgent, trades)
  {
    assert Open(0, |trades|);
  }
}
