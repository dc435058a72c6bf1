/** Average-cost profit and loss: the replay of trades against reports, its accounting identity, and two
    invariances of the position state machine. */
module Pnl {
  import opened Reals
  import opened Folded

  datatype Option<T> = None | Some(value: T)

  /** Position, average entry price and realized profit. */
  datatype State = State(pos: real, avg: Option<real>, realized: real)

  const FLAT := State(0.0, None, 0.0)

  /** `buy` is the test `side == "BUY"`; `ts` is None where the timestamp is not a number. */
  datatype Trade = Trade(ts: Option<real>, buy: bool, price: real, quantity: real)

  /** A missing report time counts as infinitely late. */
  datatype Report = Report(ts: Option<real>, bid: Option<real>, ask: Option<real>, mtm: Option<real>)

  /** The average price after adding qty at price to a held quantity. */
  function Mean(avg: real, held: real, price: real, qty: real): real
    requires held > 0.0 && qty >= 0.0
  {
    (avg * held + price * qty) / (held + qty)
  }

  /** Profit of closing a quantity bought at one price and sold at another. */
  function Gain(bought: real, sold: real, qty: real): real {
    (sold - bought) * qty
  }

  /** The BUY branch for a quantity that is not negative. */
  function Buy(s: State, price: real, qty: real): State
    requires qty >= 0.0
  {
    if s.pos < 0.0 then
      var close := Min(qty, -s.pos);
      var realized := if s.avg.Some? then s.realized + Gain(price, s.avg.value, close) else s.realized;
      var pos := s.pos + close;
      var rest := qty - close;
      if rest > 0.0 then State(pos + rest, Some(price), realized)
      else if pos == 0.0 then State(pos, None, realized)
      else State(pos, s.avg, realized)
    else
      var pos := s.pos + qty;
      var avg := if s.pos > 0.0 && s.avg.Some?
        then Mean(s.avg.value, s.pos, price, qty) else price;
      State(pos, Some(avg), s.realized)
  }

  /** The SELL branch. */
  function Sell(s: State, price: real, qty: real): State
    requires qty >= 0.0
  {
    if s.pos > 0.0 then
      var close := Min(qty, s.pos);
      var realized := if s.avg.Some? then s.realized + Gain(s.avg.value, price, close) else s.realized;
      var pos := s.pos - close;
      var rest := qty - close;
      if rest > 0.0 then State(pos - rest, Some(price), realized)
      else if pos == 0.0 then State(pos, None, realized)
      else State(pos, s.avg, realized)
    else
      var pos := s.pos - qty;
      var avg := if s.pos < 0.0 && s.avg.Some?
        then Mean(s.avg.value, -s.pos, price, qty) else price;
      State(pos, Some(avg), s.realized)
  }

  function Apply(s: State, t: Trade): State {
    if t.buy then Buy(s, t.price, Abs(t.quantity)) else Sell(s, t.price, Abs(t.quantity))
  }

  // ---------- the books, kept independently ----------

  function Signed(t: Trade): real {
    if t.buy then Abs(t.quantity) else -Abs(t.quantity)
  }

  function Position(trades: seq<Trade>): real {
    if trades == [] then 0.0 else Position(trades[..|trades| - 1]) + Signed(trades[|trades| - 1])
  }

  /** Money received minus money paid. */
  function Cost(t: Trade): real {
    Signed(t) * t.price
  }

  function Cash(trades: seq<Trade>): real {
    if trades == [] then 0.0 else Cash(trades[..|trades| - 1]) - Cost(trades[|trades| - 1])
  }

  /** The state after all trades, one step at a time. */
  function Fold(step: (State, Trade) -> State, trades: seq<Trade>): State {
    if trades == [] then FLAT else step(Fold(step, trades[..|trades| - 1]), trades[|trades| - 1])
  }

  function Replay(trades: seq<Trade>): State {
    Fold(Apply, trades)
  }

  /** The value that must be realized, given cash and position: everything when flat, and otherwise all but
      the position valued at its average price. */
  ghost predicate Balanced(s: State, cash: real) {
    && (s.pos != 0.0 ==> s.avg.Some?)
    && (s.pos == 0.0 ==> s.realized == cash)
    && (s.pos != 0.0 && s.avg.Some? ==> s.realized == cash + s.pos * s.avg.value)
  }

  // The average is a weighted mean, so it carries exactly the cost of both parts.
  lemma MeanCarriesCost(avg: real, held: real, price: real, qty: real)
    requires held > 0.0 && qty >= 0.0
    ensures Mean(avg, held, price, qty) * (held + qty) == avg * held + price * qty
  {
  }

  lemma Distribute(a: real, b: real, c: real)
    ensures (a - b) * c == a * c - b * c
    ensures (a + b) * c == a * c + b * c
    ensures a * -c == -(a * c) && (-c) * a == -(c * a) && a * c == c * a
  {
  }

  lemma BuyBalances(s: State, cash: real, price: real, qty: real)
    requires Balanced(s, cash) && qty >= 0.0
    ensures Balanced(Buy(s, price, qty), cash - qty * price)
    ensures Buy(s, price, qty).pos == s.pos + qty
  {
    var t := Buy(s, price, qty);
    if s.pos < 0.0 {
      var avg := s.avg.value;
      var close := Min(qty, -s.pos);
      Distribute(avg, price, close);
      if qty > -s.pos {
        Distribute(s.pos, qty, price);
        assert t.pos == s.pos + qty;
        assert close == -s.pos;
      } else {
        Distribute(s.pos, qty, avg);
      }
    } else if s.pos > 0.0 {
      MeanCarriesCost(s.avg.value, s.pos, price, qty);
    } else {
      assert t.pos == qty && t.avg == Some(price);
    }
  }

  predicate Closes(s: State, t: Trade) {
    if t.buy then s.pos < 0.0 else s.pos > 0.0
  }

  /** A trade that adds to a position realizes nothing, and the new average carries the cost of both parts;
      a trade from a flat position sets the average. */
  lemma TradeAdds(s: State, t: Trade)
    requires !Closes(s, t) && (s.pos != 0.0 ==> s.avg.Some?)
    ensures var u := Apply(s, t);
      && u.realized == s.realized
      && u.avg.Some?
      && (s.pos == 0.0 ==> u.avg.value == t.price)
      && (s.pos != 0.0 ==> u.pos * u.avg.value == s.pos * s.avg.value + Signed(t) * t.price)
  {
    var qty := Abs(t.quantity);
    if s.pos > 0.0 {
      MeanCarriesCost(s.avg.value, s.pos, t.price, qty);
    } else if s.pos < 0.0 {
      MeanCarriesCost(s.avg.value, -s.pos, t.price, qty);
      ShortCost(Mean(s.avg.value, -s.pos, t.price, qty), s.avg.value, s.pos, t.price, qty);
    }
  }

  /** A trade against a position realizes profit on exactly the quantity that it closes, at the average price;
      the average stays for what is left, and starts anew when the position changes sides. */
  lemma TradeCloses(s: State, t: Trade)
    requires Closes(s, t) && s.avg.Some?
    ensures var u, qty, held := Apply(s, t), Abs(t.quantity), Abs(s.pos);
      && u.realized == s.realized + (if t.buy then s.avg.value - t.price else t.price - s.avg.value) * Min(qty, held)
      && u.avg == if qty < held then s.avg else if qty == held then None else Some(t.price)
  {
  }

  lemma ShortCost(mean: real, avg: real, pos: real, price: real, qty: real)
    requires mean * (-pos + qty) == avg * -pos + price * qty
    ensures (pos - qty) * mean == pos * avg + -qty * price
  {
  }

  // ---------- exchanging the sides ----------

  function Flip(s: State): State {
    State(-s.pos, s.avg, -s.realized)
  }

  function FlipTrade(t: Trade): Trade {
    t.(buy := !t.buy)
  }

  function FlipAll(trades: seq<Trade>): seq<Trade> {
    seq(|trades|, i requires 0 <= i < |trades| => FlipTrade(trades[i]))
  }

  lemma FlippedGain(a: real, b: real, qty: real)
    ensures Gain(a, b, qty) == -Gain(b, a, qty)
  {
  }

  /** Selling is buying seen from the other side. */
  lemma SellIsFlippedBuy(s: State, price: real, qty: real)
    requires qty >= 0.0
    ensures Sell(s, price, qty) == Flip(Buy(Flip(s), price, qty))
  {
    if s.avg.Some? {
      FlippedGain(price, s.avg.value, Min(qty, s.pos));
    }
  }

  lemma ApplyOfFlipped(s: State, t: Trade)
    ensures Apply(Flip(s), FlipTrade(t)) == Flip(Apply(s, t))
  {
    var qty := Abs(t.quantity);
    if t.buy {
      SellIsFlippedBuy(Flip(s), t.price, qty);
      assert Flip(Flip(s)) == s;
    } else {
      SellIsFlippedBuy(s, t.price, qty);
      var u := Buy(Flip(s), t.price, qty);
      assert Flip(Flip(u)) == u;
    }
  }

  /** Exchanging BUY and SELL throughout negates position and realized profit and keeps the average. */
  lemma {:induction false} ReplayOfFlipped(trades: seq<Trade>)
    ensures Replay(FlipAll(trades)) == Flip(Replay(trades))
  {
    if trades != [] {
      var front, t := trades[..|trades| - 1], trades[|trades| - 1];
      ReplayOfFlipped(front);
      assert FlipAll(trades)[..|trades| - 1] == FlipAll(front);
      ApplyOfFlipped(Replay(front), t);
    }
  }

  lemma SellBalances(s: State, cash: real, price: real, qty: real)
    requires Balanced(s, cash) && qty >= 0.0
    ensures Balanced(Sell(s, price, qty), cash + qty * price)
    ensures Sell(s, price, qty).pos == s.pos - qty
  {
    FlipBalanced(s, cash);
    BuyBalances(Flip(s), -cash, price, qty);
    SellIsFlippedBuy(s, price, qty);
    FlipBalanced(Buy(Flip(s), price, qty), -cash - qty * price);
  }

  lemma FlipBalanced(s: State, cash: real)
    requires Balanced(s, cash)
    ensures Balanced(Flip(s), -cash)
  {
    if s.pos != 0.0 {
      var avg := s.avg.value;
      assert (-s.pos) * avg == -(s.pos * avg);
    }
  }

  lemma ApplyBalances(s: State, cash: real, t: Trade)
    requires Balanced(s, cash)
    ensures Balanced(Apply(s, t), cash - Cost(t)) && Apply(s, t).pos == s.pos + Signed(t)
  {
    if t.buy {
      BuyStepBalances(s, cash, t);
    } else {
      SellStepBalances(s, cash, t);
    }
  }

  lemma BuyStepBalances(s: State, cash: real, t: Trade)
    requires Balanced(s, cash) && t.buy
    ensures Balanced(Apply(s, t), cash - Cost(t)) && Apply(s, t).pos == s.pos + Signed(t)
  {
    BuyBalances(s, cash, t.price, Abs(t.quantity));
  }

  lemma SellStepBalances(s: State, cash: real, t: Trade)
    requires Balanced(s, cash) && !t.buy
    ensures Balanced(Apply(s, t), cash - Cost(t)) && Apply(s, t).pos == s.pos + Signed(t)
  {
    CostOf(t);
    SellBalances(s, cash, t.price, Abs(t.quantity));
  }

  lemma CostOf(t: Trade)
    ensures Cost(t) == if t.buy then Abs(t.quantity) * t.price else -(Abs(t.quantity) * t.price)
  {
    var qty := Abs(t.quantity);
    assert (-qty) * t.price == -(qty * t.price);
  }

  ghost predicate StepBalances(step: (State, Trade) -> State, s: State, cash: real, t: Trade) {
    Balanced(s, cash) ==> Balanced(step(s, t), cash - Cost(t)) && step(s, t).pos == s.pos + Signed(t)
  }

  lemma {:induction false} FoldBalances(step: (State, Trade) -> State, trades: seq<Trade>)
    requires forall s, cash, t :: StepBalances(step, s, cash, t)
    ensures Fold(step, trades).pos == Position(trades)
    ensures Balanced(Fold(step, trades), Cash(trades))
  {
    if trades != [] {
      var front := trades[..|trades| - 1];
      FoldBalances(step, front);
      assert StepBalances(step, Fold(step, front), Cash(front), trades[|trades| - 1]);
    }
  }

  /** After any trades: the position is the signed sum of quantities, a non-zero position has an average
      price, and what is realized is the cash flow plus the position at that price. */
  lemma ReplayBalances(trades: seq<Trade>)
    ensures Replay(trades).pos == Position(trades)
    ensures Balanced(Replay(trades), Cash(trades))
  {
    forall s, cash, t ensures StepBalances(Apply, s, cash, t) {
      if Balanced(s, cash) {
        ApplyBalances(s, cash, t);
      }
    }
    FoldBalances(Apply, trades);
  }

  // ---------- splitting a trade ----------

  lemma MeanOfMeans(avg: real, held: real, price: real, q1: real, q2: real)
    requires held > 0.0 && q1 > 0.0 && q2 > 0.0
    ensures Mean(Mean(avg, held, price, q1), held + q1, price, q2) == Mean(avg, held, price, q1 + q2)
  {
    MeanCarriesCost(avg, held, price, q1);
    assert price * q1 + price * q2 == price * (q1 + q2);
  }

  lemma QuotientOfProduct(a: real, b: real)
    requires b != 0.0
    ensures (a * b) / b == a
  {
  }

  lemma MeanOfOnePrice(price: real, held: real, qty: real)
    requires held > 0.0 && qty > 0.0
    ensures Mean(price, held, price, qty) == price
  {
    assert price * held + price * qty == price * (held + qty);
    QuotientOfProduct(price, held + qty);
  }

  lemma GainOfSum(bought: real, sold: real, a: real, b: real)
    ensures Gain(bought, sold, a) + Gain(bought, sold, b) == Gain(bought, sold, a + b)
  {
  }

  lemma BuyInTwoParts(s: State, price: real, q1: real, q2: real)
    requires q1 > 0.0 && q2 > 0.0 && (s.pos != 0.0 ==> s.avg.Some?)
    ensures Buy(Buy(s, price, q1), price, q2) == Buy(s, price, q1 + q2)
  {
    if s.pos > 0.0 {
      MeanOfMeans(s.avg.value, s.pos, price, q1, q2);
    } else if s.pos == 0.0 {
      MeanOfOnePrice(price, q1, q2);
    } else if q1 > -s.pos {
      MeanOfOnePrice(price, s.pos + q1, q2);
      assert Min(q1, -s.pos) == Min(q1 + q2, -s.pos) == -s.pos;
      assert Buy(s, price, q1).avg == Some(price) && Buy(s, price, q1).pos == s.pos + q1 > 0.0;
    } else {
      GainOfSum(price, s.avg.value, q1, Min(q2, -(s.pos + q1)));
    }
  }

  /** Two consecutive positive parts of a trade at one price do what the whole trade does, whether it adds
      to the position, reduces it, closes it or turns it around. */
  lemma ApplyInTwoParts(s: State, t: Trade, q1: real, q2: real)
    requires q1 > 0.0 && q2 > 0.0 && t.quantity == q1 + q2 && (s.pos != 0.0 ==> s.avg.Some?)
    ensures Apply(Apply(s, t.(quantity := q1)), t.(quantity := q2)) == Apply(s, t)
  {
    if t.buy {
      BuyInTwoParts(s, t.price, q1, q2);
    } else {
      BuyInTwoParts(Flip(s), t.price, q1, q2);
      SellIsFlippedBuy(s, t.price, q1);
      SellIsFlippedBuy(Sell(s, t.price, q1), t.price, q2);
      SellIsFlippedBuy(s, t.price, q1 + q2);
      var u := Buy(Flip(s), t.price, q1);
      assert Flip(Flip(u)) == u;
    }
  }

  lemma {:induction false} SameStateSameFuture(a: seq<Trade>, b: seq<Trade>, more: seq<Trade>)
    requires Replay(a) == Replay(b)
    ensures Replay(a + more) == Replay(b + more)
    decreases |more|
  {
    if more == [] {
      assert a + more == a && b + more == b;
    } else {
      var front := more[..|more| - 1];
      SameStateSameFuture(a, b, front);
      assert (a + more)[..|a + more| - 1] == a + front && (b + more)[..|b + more| - 1] == b + front;
    }
  }

  lemma ReplayOfSnoc(trades: seq<Trade>, t: Trade)
    ensures Replay(trades + [t]) == Apply(Replay(trades), t)
  {
    assert (trades + [t])[..|trades|] == trades;
  }

  /** Splitting any one trade of a run into two positive parts at its price changes nothing after it. */
  lemma ReplayOfSplit(before: seq<Trade>, t: Trade, q1: real, q2: real, after: seq<Trade>)
    requires q1 > 0.0 && q2 > 0.0 && t.quantity == q1 + q2
    ensures Replay(before + [t] + after) ==
            Replay(before + [t.(quantity := q1)] + [t.(quantity := q2)] + after)
  {
    var part1, part2 := t.(quantity := q1), t.(quantity := q2);
    ReplayBalances(before);
    ReplayOfSnoc(before, t);
    ReplayOfSnoc(before, part1);
    ReplayOfSnoc(before + [part1], part2);
    ApplyInTwoParts(Replay(before), t, q1, q2);
    SameStateSameFuture(before + [t], before + [part1] + [part2], after);
  }

  // ---------- marking to market ----------

  function Mark(pos: real, r: Report): Option<real> {
    if r.mtm.Some? then r.mtm
    else if pos > 0.0 && r.bid.Some? then r.bid
    else if pos < 0.0 && r.ask.Some? then r.ask
    else if r.bid.Some? && r.ask.Some? then Some((r.bid.value + r.ask.value) / 2.0)
    else None
  }

  function Unrealized(s: State, mark: Option<real>): real {
    if mark.Some? && s.avg.Some? && s.pos != 0.0 then
      if s.pos > 0.0 then (mark.value - s.avg.value) * s.pos else (s.avg.value - mark.value) * -s.pos
    else 0.0
  }

  function Total(s: State, r: Report): real {
    s.realized + Unrealized(s, Mark(s.pos, r))
  }

  /** Cash plus a position valued at the mark. */
  function Worth(cash: real, pos: real, mark: real): real {
    cash + pos * mark
  }

  ghost predicate IsWorth(total: real, realized: real, cash: real, pos: real, mark: Option<real>) {
    && (mark.Some? ==> total == Worth(cash, pos, mark.value))
    && (mark.None? ==> total == realized)
    && (pos == 0.0 ==> total == cash)
  }

  lemma TotalOfBalanced(s: State, cash: real, pos: real, r: Report)
    requires Balanced(s, cash) && s.pos == pos
    ensures IsWorth(Total(s, r), s.realized, cash, pos, Mark(pos, r))
  {
    var mark := Mark(s.pos, r);
    if mark.Some? && s.pos != 0.0 {
      WorthOfPosition(s.pos, s.avg.value, mark.value);
    }
  }

  /** At a report the total is cash flow plus position times mark; without a mark it is what is realized,
      which is the cash flow if the position is flat. */
  lemma TotalIsWorth(trades: seq<Trade>, r: Report)
    ensures IsWorth(Total(Replay(trades), r), Replay(trades).realized,
              Cash(trades), Position(trades), Mark(Position(trades), r))
  {
    ReplayBalances(trades);
    TotalOfBalanced(Replay(trades), Cash(trades), Position(trades), r);
  }

  /** What the total is, quote by quote: the mark-to-market price comes first; without it a long position is
      valued at the bid and a short one at the ask, and without that quote only what is realized counts. */
  ghost predicate AtQuotes(total: real, realized: real, cash: real, pos: real, r: Report) {
    && (r.mtm.Some? ==> total == Worth(cash, pos, r.mtm.value))
    && (r.mtm.None? && pos > 0.0 && r.bid.Some? ==> total == Worth(cash, pos, r.bid.value))
    && (r.mtm.None? && pos < 0.0 && r.ask.Some? ==> total == Worth(cash, pos, r.ask.value))
    && (r.mtm.None? && pos > 0.0 && r.bid.None? ==> total == realized)
    && (r.mtm.None? && pos < 0.0 && r.ask.None? ==> total == realized)
    && (pos == 0.0 ==> total == cash)
  }

  lemma MarkAtQuotes(total: real, realized: real, cash: real, pos: real, r: Report)
    requires IsWorth(total, realized, cash, pos, Mark(pos, r))
    ensures AtQuotes(total, realized, cash, pos, r)
  {
  }

  lemma TotalAtQuotes(trades: seq<Trade>, r: Report)
    ensures AtQuotes(Total(Replay(trades), r), Replay(trades).realized, Cash(trades), Position(trades), r)
  {
    TotalIsWorth(trades, r);
    MarkAtQuotes(Total(Replay(trades), r), Replay(trades).realized, Cash(trades), Position(trades), r);
  }

  /** With both quotes, not crossed, a position is worth the less favourable of them: what closing it brings. */
  lemma WorstQuote(total: real, realized: real, cash: real, pos: real, r: Report)
    requires AtQuotes(total, realized, cash, pos, r)
    requires r.mtm.None? && r.bid.Some? && r.ask.Some? && r.bid.value <= r.ask.value
    ensures total == Min(Worth(cash, pos, r.bid.value), Worth(cash, pos, r.ask.value))
  {
    Ordered(pos, r.bid.value, r.ask.value);
  }

  lemma Ordered(pos: real, low: real, high: real)
    requires low <= high
    ensures pos >= 0.0 ==> pos * low <= pos * high
    ensures pos <= 0.0 ==> pos * high <= pos * low
  {
    var apart := high - low;
    assert pos * high == pos * low + pos * apart;
    assert pos >= 0.0 ==> pos * apart >= 0.0;
    assert pos <= 0.0 ==> pos * apart <= 0.0;
  }

  lemma TotalIsWorstQuote(trades: seq<Trade>, r: Report)
    requires r.mtm.None? && r.bid.Some? && r.ask.Some? && r.bid.value <= r.ask.value
    ensures Total(Replay(trades), r) ==
      Min(Worth(Cash(trades), Position(trades), r.bid.value), Worth(Cash(trades), Position(trades), r.ask.value))
  {
    TotalAtQuotes(trades, r);
    WorstQuote(Total(Replay(trades), r), Replay(trades).realized, Cash(trades), Position(trades), r);
  }

  function SwapQuotes(r: Report): Report {
    r.(bid := r.ask, ask := r.bid)
  }

  lemma MarkOfSwapped(pos: real, r: Report)
    requires pos != 0.0
    ensures Mark(-pos, SwapQuotes(r)) == Mark(pos, r)
  {
  }

  lemma UnrealizedOfFlipped(s: State, mark: Option<real>)
    ensures Unrealized(Flip(s), mark) == -Unrealized(s, mark)
  {
  }

  /** Exchanging BUY and SELL, and with them bid and ask, negates every total. */
  lemma TotalOfFlipped(trades: seq<Trade>, r: Report)
    ensures Total(Replay(FlipAll(trades)), SwapQuotes(r)) == -Total(Replay(trades), r)
  {
    var s := Replay(trades);
    ReplayOfFlipped(trades);
    UnrealizedOfFlipped(s, Mark(s.pos, r));
    if s.pos != 0.0 {
      MarkOfSwapped(s.pos, r);
    }
  }

  lemma WorthOfPosition(pos: real, avg: real, mark: real)
    ensures pos * avg + (mark - avg) * pos == pos * mark
    ensures pos * avg + (avg - mark) * -pos == pos * mark
  {
  }

  // ---------- the two-pointer replay ----------

  /** `t_ts[i] <= ts`, which is false for a trade without a timestamp. */
  predicate Due(t: Trade, r: Report) {
    t.ts.Some? && (r.ts.None? || t.ts.value <= r.ts.value)
  }

  function AllDue(trades: seq<Trade>, r: Report): seq<Trade> {
    if trades == [] then []
    else
      var last := trades[|trades| - 1];
      AllDue(trades[..|trades| - 1], r) + (if Due(last, r) then [last] else [])
  }

  /** The trades replayed for a report are those at its time or earlier; a report without a time comes after
      every trade that has one. */
  lemma {:induction false} DueByTime(trades: seq<Trade>, r: Report, t: Trade)
    ensures t in AllDue(trades, r) <==> t in trades && t.ts.Some? && (r.ts.Some? ==> t.ts.value <= r.ts.value)
  {
    if trades != [] {
      var front, last := trades[..|trades| - 1], trades[|trades| - 1];
      DueByTime(front, r, t);
      assert trades == front + [last];
    }
  }

  /** No later than; missing timestamps are sorted last. */
  predicate NotAfter(a: Option<real>, b: Option<real>) {
    b.None? || (a.Some? && a.value <= b.value)
  }

  ghost predicate TradesSorted(trades: seq<Trade>) {
    forall i, j | 0 <= i < j < |trades| :: NotAfter(trades[i].ts, trades[j].ts)
  }

  ghost predicate ReportsSorted(reports: seq<Report>) {
    forall i, j | 0 <= i < j < |reports| :: NotAfter(reports[i].ts, reports[j].ts)
  }

  lemma {:induction false} DueIsPrefix(trades: seq<Trade>, r: Report, i: nat)
    requires i <= |trades|
    requires forall k | 0 <= k < i :: Due(trades[k], r)
    requires forall k | i <= k < |trades| :: !Due(trades[k], r)
    ensures AllDue(trades, r) == trades[..i]
    decreases |trades|
  {
    if trades != [] {
      var front := trades[..|trades| - 1];
      if i == |trades| {
        DueIsPrefix(front, r, i - 1);
      } else {
        DueIsPrefix(front, r, i);
        assert front[..i] == trades[..i];
      }
    }
  }

  /** The first i trades are due at the report. */
  ghost predicate DueUpTo(trades: seq<Trade>, i: nat, r: Report) {
    i <= |trades| && forall k | 0 <= k < i :: Due(trades[k], r)
  }

  lemma StillDue(trades: seq<Trade>, i: nat, r: Report, later: Report)
    requires DueUpTo(trades, i, r) && NotAfter(r.ts, later.ts)
    ensures DueUpTo(trades, i, later)
  {
  }

  lemma DueEndsAt(trades: seq<Trade>, i: nat, r: Report)
    requires TradesSorted(trades) && DueUpTo(trades, i, r) && (i < |trades| ==> !Due(trades[i], r))
    ensures AllDue(trades, r) == trades[..i]
  {
    forall k | i <= k < |trades| ensures !Due(trades[k], r) {
      assert k == i || NotAfter(trades[i].ts, trades[k].ts);
    }
    DueIsPrefix(trades, r, i);
  }

  /** The state after the first i trades. */
  ghost predicate Replayed(trades: seq<Trade>, i: nat, s: State) {
    i <= |trades| && forall x {:trigger Open(x, REPLAYED)} :: Open(x, REPLAYED) ==> s == Replay(trades[..i])
  }

  const REPLAYED: int := 40

  lemma ReplayedNext(trades: seq<Trade>, i: nat, s: State)
    requires i < |trades| && Replayed(trades, i, s)
    ensures Replayed(trades, i + 1, Apply(s, trades[i]))
  {
    assert Open(0, REPLAYED);
    assert trades[..i + 1] == trades[..i] + [trades[i]];
    ReplayOfSnoc(trades[..i], trades[i]);
  }

  /** The output rows of the first n reports. */
  ghost predicate RowsOf(trades: seq<Trade>, reports: seq<Report>, n: nat, out: seq<real>) {
    |out| == n <= |reports| && forall x {:trigger Open(x, TOTALS)} :: Open(x, TOTALS) ==>
      forall k | 0 <= k < n :: out[k] == Total(Replay(AllDue(trades, reports[k])), reports[k])
  }

  const TOTALS: int := 41

  lemma NextRow(trades: seq<Trade>, reports: seq<Report>, n: nat, out: seq<real>, i: nat, s: State)
    requires RowsOf(trades, reports, n, out) && n < |reports| && TradesSorted(trades)
    requires Replayed(trades, i, s) && DueUpTo(trades, i, reports[n]) && (i < |trades| ==> !Due(trades[i], reports[n]))
    ensures RowsOf(trades, reports, n + 1, out + [Total(s, reports[n])])
  {
    assert Open(0, TOTALS) && Open(0, REPLAYED);
    DueEndsAt(trades, i, reports[n]);
  }

  /** `recompute_pnl` on trades and reports already sorted by time, in any order among equal times: each
      output row is the total after replaying, from scratch, all trades due at that report. */
  method Recompute(trades: seq<Trade>, reports: seq<Report>) returns (out: seq<real>)
    requires TradesSorted(trades) && ReportsSorted(reports)
    ensures |out| == |reports|
    ensures forall k | 0 <= k < |reports| :: out[k] == Total(Replay(AllDue(trades, reports[k])), reports[k])
  {
    out := [];
    var s := FLAT;
    var i := 0;
    for n := 0 to |reports|
      invariant Replayed(trades, i, s) && RowsOf(trades, reports, n, out)
      invariant if n == 0 then i == 0 else DueUpTo(trades, i, reports[n - 1])
    {
      var rep := reports[n];
      if n > 0 {
        StillDue(trades, i, reports[n - 1], rep);
      }
      while i < |trades| && Due(trades[i], rep)
        invariant Replayed(trades, i, s) && DueUpTo(trades, i, rep)
      {
        ReplayedNext(trades, i, s);
        s := ApplyTrade(s, trades[i]);
        i := i + 1;
      }
      NextRow(trades, reports, n, out, i, s);
      out := out + [Total(s, rep)];
    }
    assert Open(0, TOTALS);
  }

  /** The body of the inner loop, branch by branch. */
  method ApplyTrade(s: State, t: Trade) returns (r: State)
    ensures r == Apply(s, t)
  {
    var pos, avg, realized := s.pos, s.avg, s.realized;
    var price, qty := t.price, Abs(t.quantity);
    if t.buy {
      if pos < 0.0 {
        var close := Min(qty, -pos);
        if avg.Some? {
          realized := realized + Gain(price, avg.value, close);
        }
        pos, qty := pos + close, qty - close;
        if qty > 0.0 {
          pos, avg := pos + qty, Some(price);
        } else if pos == 0.0 {
          avg := None;
        }
      } else {
        avg := Some(if pos > 0.0 && avg.Some? then Mean(avg.value, pos, price, qty) else price);
        pos := pos + qty;
      }
    } else {
      if pos > 0.0 {
        var close := Min(qty, pos);
        if avg.Some? {
          realized := realized + Gain(avg.value, price, close);
        }
        pos, qty := pos - close, qty - close;
        if qty > 0.0 {
          pos, avg := pos - qty, Some(price);
        } else if pos == 0.0 {
          avg := None;
        }
      } else {
        avg := Some(if pos < 0.0 && avg.Some? then Mean(avg.value, -pos, price, qty) else price);
        pos := pos - qty;
      }
    }
    r := State(pos, avg, realized);
  }
}
