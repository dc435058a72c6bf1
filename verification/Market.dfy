/** Market matching: the nested walk over price levels, the flat greedy rule it refines,
    the closed form of the fills, conservation of volume, and the invariants it keeps. */
module Market {
  import opened Sequences
  import opened KeyOrder
  import opened BookState
  import opened Reals
  import opened Folded

  const EPS: real := 0.000000001

  datatype Trade = Trade(price: int, volume: real, makerId: OrderId, makerIsAgent: bool)

  function TradeWith(price: int, maker: Order, fill: real): Trade {
    Trade(price, fill, maker.id, maker.isAgent)
  }

  /** What happens when the taker reaches a maker: an agent taker deletes an agent maker untraded,
      any other maker trades the smaller volume and is gone once less than EPS of it is left. */
  datatype Meeting = Meeting(trades: seq<Trade>, fill: real, gone: bool)

  function Meet(price: int, maker: Order, remain: real, takerIsAgent: bool): (m: Meeting)
    ensures !m.gone ==> m.fill == remain
  {
    if maker.isAgent && takerIsAgent then Meeting([], 0.0, true) else
      var fill := Min(remain, maker.volume);
      Meeting([TradeWith(price, maker, fill)], fill, maker.volume - fill < EPS)
  }

  function Reduced(maker: Order, fill: real): Order {
    maker.(volume := maker.volume - fill)
  }

  // ---------- the nested loops, as recursion ----------

  /** `popped` counts the orders taken off the front, `filled` those of them that traded. */
  datatype QueueRun = QueueRun(queue: Queue, remain: real, trades: seq<Trade>, popped: nat, filled: nat)

  /** The inner loop over one level. */
  function WalkQueue(price: int, queue: Queue, remain: real, takerIsAgent: bool): (r: QueueRun)
    ensures r.queue != [] ==> r.remain <= EPS
    ensures r.popped + |r.queue| == |queue|
  {
    if queue == [] || remain <= EPS then QueueRun(queue, remain, [], 0, 0) else
      var m := Meet(price, queue[0], remain, takerIsAgent);
      if m.gone then
        var r := WalkQueue(price, queue[1..], remain - m.fill, takerIsAgent);
        r.(trades := m.trades + r.trades, popped := 1 + r.popped, filled := |m.trades| + r.filled)
      else
        QueueRun([Reduced(queue[0], m.fill)] + queue[1..], remain - m.fill, m.trades, 0, 0)
  }

  /** The index after the first n orders of a level are popped one by one, each pop renumbering the rest. */
  function PopIndex(index: Index, queue: Queue, n: nat): Index
    requires n <= |queue|
    decreases n
  {
    if n == 0 then index
    else PopIndex(Reindex(index - {queue[0].id}, queue[1..], 0), queue[1..], n - 1)
  }

  datatype Run = Run(book: Book, remain: real, trades: seq<Trade>, filled: nat)

  function AfterQueue(s: Book, hit: bool, price: int, queue: Queue, index: Index): Book {
    s.WithSide(hit, Put(s.Side(hit), price, queue)).(index := index)
  }

  /** The outer loop over the levels of the side that is hit. */
  function Walk(s: Book, hit: bool, remain: real, takerIsAgent: bool): Run
    decreases |s.Side(hit)|
  {
    if remain <= EPS || s.Side(hit) == map[] then Run(s, remain, [], 0) else
      var price := Best(hit, s.Side(hit));
      var queue := s.Side(hit)[price];
      var r := WalkQueue(price, queue, remain, takerIsAgent);
      var t := AfterQueue(s, hit, price, r.queue, PopIndex(s.index, queue, r.popped));
      if r.queue == [] then
        FewerLevels(s.Side(hit), price);
        var next := Walk(t, hit, r.remain, takerIsAgent);
        next.(trades := r.trades + next.trades, filled := r.filled + next.filled)
      else
        Run(t, r.remain, r.trades, r.filled)
  }

  lemma FewerLevels(levels: Levels, price: int)
    requires price in levels
    ensures |levels - {price}| < |levels|
  {
    assert (levels - {price}).Keys == levels.Keys - {price};
    assert |(levels - {price}).Keys| == |levels - {price}|;
  }

  // ---------- the side that is hit, flattened ----------

  datatype Offer = Offer(price: int, order: Order)

  function Tag(price: int, queue: Queue): (f: seq<Offer>)
    ensures |f| == |queue|
    ensures forall i | 0 <= i < |f| :: f[i] == Offer(price, queue[i])
  {
    seq(|queue|, i requires 0 <= i < |queue| => Offer(price, queue[i]))
  }

  /** All orders of a side, best price first and first-in-first-out within a price. */
  function Flat(isBuy: bool, levels: Levels): seq<Offer>
    decreases |levels|
  {
    if levels == map[] then [] else
      var price := Best(isBuy, levels);
      FewerLevels(levels, price);
      Tag(price, levels[price]) + Flat(isBuy, levels - {price})
  }

  lemma TagSplit(price: int, queue: Queue, tail: seq<Offer>)
    requires queue != []
    ensures Tag(price, queue) + tail == [Offer(price, queue[0])] + (Tag(price, queue[1..]) + tail)
    ensures (Tag(price, queue) + tail)[1..] == Tag(price, queue[1..]) + tail
  {
  }

  function AtPrice(offers: seq<Offer>, price: int): Queue {
    if offers == [] then []
    else (if offers[0].price == price then [offers[0].order] else []) + AtPrice(offers[1..], price)
  }

  lemma {:induction false} AtPriceOfTag(price: int, queue: Queue, tail: seq<Offer>, at: int)
    ensures AtPrice(Tag(price, queue) + tail, at) == (if price == at then queue else []) + AtPrice(tail, at)
    decreases |queue|
  {
    if queue == [] {
      assert Tag(price, queue) + tail == tail;
    } else {
      AtPriceOfTag(price, queue[1..], tail, at);
      TagSplit(price, queue, tail);
      assert price == at ==> [queue[0]] + (queue[1..] + AtPrice(tail, at)) == queue + AtPrice(tail, at);
    }
  }

  /** Flattening loses nothing and keeps time priority: at every price it reads back the queue. */
  lemma {:induction false} FlatAtPrice(isBuy: bool, levels: Levels, price: int)
    ensures AtPrice(Flat(isBuy, levels), price) == QueueAt(levels, price)
    decreases |levels|
  {
    if levels != map[] {
      var best := Best(isBuy, levels);
      FewerLevels(levels, best);
      FlatAtPrice(isBuy, levels - {best}, price);
      AtPriceOfTag(best, levels[best], Flat(isBuy, levels - {best}), price);
    }
  }

  lemma {:induction false} FlatMembers(isBuy: bool, levels: Levels, offer: Offer)
    ensures offer in Flat(isBuy, levels) <==> offer.price in levels && offer.order in levels[offer.price]
    decreases |levels|
  {
    if levels != map[] {
      var best := Best(isBuy, levels);
      FewerLevels(levels, best);
      FlatMembers(isBuy, levels - {best}, offer);
      var tag := Tag(best, levels[best]);
      assert offer in tag <==> offer.price == best && offer.order in levels[best] by {
        if offer.price == best && offer.order in levels[best] {
          var i :| 0 <= i < |levels[best]| && levels[best][i] == offer.order;
          assert tag[i] == offer;
        }
      }
    }
  }

  /** The offers met by a loop over the given levels and, in each, over its queue. */
  function FlatOver(prices: seq<int>, levels: Levels): seq<Offer>
    requires forall p | p in prices :: p in levels
  {
    if prices == [] then [] else Tag(prices[0], levels[prices[0]]) + FlatOver(prices[1..], levels)
  }

  lemma {:induction false} FlatOverIgnores(prices: seq<int>, levels: Levels, price: int)
    requires forall p | p in prices :: p in levels && p != price
    ensures FlatOver(prices, levels - {price}) == FlatOver(prices, levels)
  {
    if prices != [] {
      FlatOverIgnores(prices[1..], levels, price);
    }
  }

  /** Iterating the map level by level meets the orders in the flattened order. */
  lemma {:induction false} FlatIsIteration(isBuy: bool, levels: Levels)
    ensures Flat(isBuy, levels) == FlatOver(InOrder(isBuy, levels.Keys), levels)
    decreases |levels|
  {
    if levels != map[] {
      var best := Best(isBuy, levels);
      FewerLevels(levels, best);
      FlatIsIteration(isBuy, levels - {best});
      assert (levels - {best}).Keys == levels.Keys - {best};
      FlatOverIgnores(InOrder(isBuy, levels.Keys - {best}), levels, best);
    }
  }

  /** A loop over the levels of a side, about to enter its i-th price, has met the first k offers. */
  ghost predicate StandsAt(isBuy: bool, levels: Levels, prices: seq<int>, i: nat, k: nat) {
    forall x {:trigger Open(x, i)} :: Open(x, i) ==>
      && i <= |prices| && k <= |Flat(isBuy, levels)|
      && (forall j | 0 <= j < |prices| :: prices[j] in levels)
      && (forall p | p in levels :: p in prices)
      && (forall j | 0 <= j < |prices| :: prices[j] !in prices[..j])
      && (forall p | p in prices[i..] :: p in levels)
      && Flat(isBuy, levels)[k..] == FlatOver(prices[i..], levels)
  }

  lemma StandsAtStart(isBuy: bool, levels: Levels)
    ensures StandsAt(isBuy, levels, InOrder(isBuy, levels.Keys), 0, 0)
  {
    FlatIsIteration(isBuy, levels);
    InOrderIsSorted(isBuy, levels.Keys);
    var prices := InOrder(isBuy, levels.Keys);
    assert prices[0..] == prices && Flat(isBuy, levels)[0..] == Flat(isBuy, levels);
  }

  lemma StandsAtNext(isBuy: bool, levels: Levels, prices: seq<int>, i: nat, k: nat)
    requires StandsAt(isBuy, levels, prices, i, k) && i < |prices|
    ensures prices[i] in levels
    ensures var offers, queue := Flat(isBuy, levels), levels[prices[i]];
      && k + |queue| <= |offers|
      && (forall j | 0 <= j < |queue| :: offers[k + j] == Offer(prices[i], queue[j]))
      && prices[i] !in prices[..i]
      && StandsAt(isBuy, levels, prices, i + 1, k + |queue|)
  {
    assert Open(0, i);
    FlatOverNext(prices[i..], levels, Flat(isBuy, levels), k);
    assert prices[i..][1..] == prices[i + 1..];
  }

  lemma StandsAtEnd(isBuy: bool, levels: Levels, prices: seq<int>, k: nat)
    requires StandsAt(isBuy, levels, prices, |prices|, k)
    ensures k == |Flat(isBuy, levels)|
    ensures forall p | p in levels :: p in prices
  {
    assert Open(0, |prices|);
    assert prices[|prices|..] == [];
  }

  lemma FlatOverNext(prices: seq<int>, levels: Levels, offers: seq<Offer>, k: nat)
    requires prices != [] && (forall p | p in prices :: p in levels)
    requires k <= |offers| && offers[k..] == FlatOver(prices, levels)
    ensures var queue := levels[prices[0]];
      && k + |queue| <= |offers|
      && (forall j | 0 <= j < |queue| :: offers[k + j] == Offer(prices[0], queue[j]))
      && offers[k + |queue|..] == FlatOver(prices[1..], levels)
  {
    var tag := Tag(prices[0], levels[prices[0]]);
    assert offers[k..] == tag + FlatOver(prices[1..], levels);
    forall j | 0 <= j < |tag| ensures offers[k + j] == tag[j] {
      assert offers[k..][j] == tag[j];
    }
    assert offers[k + |tag|..] == offers[k..][|tag|..];
  }

  /** Flattening keeps price priority. */
  lemma {:induction false} FlatIsSorted(isBuy: bool, levels: Levels)
    ensures forall i | 0 <= i < |Flat(isBuy, levels)| :: Flat(isBuy, levels)[i].price in levels
    ensures forall i, j | 0 <= i < j < |Flat(isBuy, levels)| ::
              !Before(isBuy, Flat(isBuy, levels)[j].price, Flat(isBuy, levels)[i].price)
    decreases |levels|
  {
    if levels != map[] {
      var best := Best(isBuy, levels);
      FewerLevels(levels, best);
      FlatIsSorted(isBuy, levels - {best});
    }
  }

  /** Replacing the queue of the best level only changes the head of the flattened side. */
  lemma FlatOfPut(isBuy: bool, levels: Levels, queue: Queue)
    requires levels != map[]
    ensures var p := Best(isBuy, levels);
      Flat(isBuy, Put(levels, p, queue)) == Tag(p, queue) + Flat(isBuy, levels - {p})
  {
    var p := Best(isBuy, levels);
    var put := Put(levels, p, queue);
    if queue != [] {
      assert p in put && Best(isBuy, put) == p;
      assert put - {p} == levels - {p};
    }
  }

  // ---------- the greedy rule ----------

  /** `cancelled` are the agent makers that self-trade prevention deletes untraded. */
  datatype Sweep = Sweep(trades: seq<Trade>, cancelled: seq<Order>, rest: seq<Offer>, remain: real)

  /** The taker meets the best offer; if that is gone it goes on with the next one. */
  function Greedy(offers: seq<Offer>, remain: real, takerIsAgent: bool): Sweep {
    if remain <= EPS || offers == [] then Sweep([], [], offers, remain) else
      var Offer(price, maker) := offers[0];
      var m := Meet(price, maker, remain, takerIsAgent);
      if m.gone then
        var g := Greedy(offers[1..], remain - m.fill, takerIsAgent);
        g.(trades := m.trades + g.trades, cancelled := (if m.trades == [] then [maker] else []) + g.cancelled)
      else
        Sweep(m.trades, [], [Offer(price, Reduced(maker, m.fill))] + offers[1..], remain - m.fill)
  }

  /** A sweep of one level followed by a sweep of everything behind it. */
  function Continue(price: int, r: QueueRun, tail: seq<Offer>, takerIsAgent: bool): Sweep {
    if r.queue == [] then
      var g := Greedy(tail, r.remain, takerIsAgent);
      g.(trades := r.trades + g.trades)
    else
      Sweep(r.trades, [], Tag(price, r.queue) + tail, r.remain)
  }

  predicate SameButCancelled(a: Sweep, b: Sweep) {
    a.trades == b.trades && a.rest == b.rest && a.remain == b.remain
  }

  lemma GreedyFirst(offer: Offer, behind: seq<Offer>, remain: real, takerIsAgent: bool)
    requires remain > EPS
    ensures var m := Meet(offer.price, offer.order, remain, takerIsAgent);
      var g := Greedy([offer] + behind, remain, takerIsAgent);
      var next := Greedy(behind, remain - m.fill, takerIsAgent);
      && (m.gone ==> g.trades == m.trades + next.trades && g.rest == next.rest && g.remain == next.remain)
      && (!m.gone ==>
            && g.trades == m.trades
            && g.remain == remain - m.fill
            && g.rest == [Offer(offer.price, Reduced(offer.order, m.fill))] + behind)
  {
    assert ([offer] + behind)[1..] == behind;
  }

  lemma {:induction false} WalkQueueIsGreedy(
      price: int, queue: Queue, remain: real, takerIsAgent: bool, tail: seq<Offer>)
    ensures SameButCancelled(Greedy(Tag(price, queue) + tail, remain, takerIsAgent),
              Continue(price, WalkQueue(price, queue, remain, takerIsAgent), tail, takerIsAgent))
    decreases |queue|
  {
    if queue == [] {
      assert Tag(price, queue) + tail == tail;
    } else if remain > EPS {
      var maker, rest := queue[0], queue[1..];
      TagSplit(price, queue, tail);
      GreedyFirst(Offer(price, maker), Tag(price, rest) + tail, remain, takerIsAgent);
      var m := Meet(price, maker, remain, takerIsAgent);
      if m.gone {
        WalkQueueIsGreedy(price, rest, remain - m.fill, takerIsAgent, tail);
        var r := WalkQueue(price, rest, remain - m.fill, takerIsAgent);
        Associative(m.trades, r.trades, Greedy(tail, r.remain, takerIsAgent).trades);
      } else {
        TagSplit(price, [Reduced(maker, m.fill)] + rest, tail);
        assert ([Reduced(maker, m.fill)] + rest)[1..] == rest;
      }
    }
  }

  /** The nested loops trade, and leave behind, exactly what the greedy rule says of the flattened side. */
  lemma {:induction false} WalkIsGreedy(s: Book, hit: bool, remain: real, takerIsAgent: bool)
    ensures var w := Walk(s, hit, remain, takerIsAgent);
      var g := Greedy(Flat(hit, s.Side(hit)), remain, takerIsAgent);
      && w.trades == g.trades
      && w.remain == g.remain
      && Flat(hit, w.book.Side(hit)) == g.rest
      && w.book.Side(!hit) == s.Side(!hit)
    decreases |s.Side(hit)|
  {
    var levels := s.Side(hit);
    if remain > EPS && levels != map[] {
      var price := Best(hit, levels);
      var r := WalkQueue(price, levels[price], remain, takerIsAgent);
      WalkQueueIsGreedy(price, levels[price], remain, takerIsAgent, Flat(hit, levels - {price}));
      FlatOfPut(hit, levels, r.queue);
      if r.queue == [] {
        FewerLevels(levels, price);
        WalkIsGreedy(AfterQueue(s, hit, price, r.queue, PopIndex(s.index, levels[price], r.popped)), hit, r.remain, takerIsAgent);
      }
    }
  }

  // ---------- what the greedy rule means ----------

  function Traded(trades: seq<Trade>): real {
    if trades == [] then 0.0 else trades[0].volume + Traded(trades[1..])
  }

  function Volume(orders: seq<Order>): real {
    if orders == [] then 0.0 else orders[0].volume + Volume(orders[1..])
  }

  function Offered(offers: seq<Offer>): real {
    if offers == [] then 0.0 else offers[0].order.volume + Offered(offers[1..])
  }

  lemma {:induction false} TradedOfConcat(a: seq<Trade>, b: seq<Trade>)
    ensures Traded(a + b) == Traded(a) + Traded(b)
  {
    if a == [] {
      assert a + b == b;
    } else {
      TradedOfConcat(a[1..], b);
      assert (a + b)[1..] == a[1..] + b;
    }
  }

  lemma VolumeOfCons(order: Order, orders: seq<Order>)
    ensures Volume([order] + orders) == order.volume + Volume(orders)
  {
    assert ([order] + orders)[1..] == orders;
  }

  lemma OfferedOfCons(offer: Offer, offers: seq<Offer>)
    ensures Offered([offer] + offers) == offer.order.volume + Offered(offers)
  {
    assert ([offer] + offers)[1..] == offers;
  }

  /** What a sweep takes from the side: fills, deleted agent makers, and a rounding residue. */
  function Residue(offers: seq<Offer>, g: Sweep): real {
    Offered(offers) - Offered(g.rest) - Traded(g.trades) - Volume(g.cancelled)
  }

  lemma OneMeetingConserves(offers: seq<Offer>, remain: real, takerIsAgent: bool)
    requires remain > EPS && offers != []
    ensures var Offer(price, maker) := offers[0];
      var m := Meet(price, maker, remain, takerIsAgent);
      var g := Greedy(offers, remain, takerIsAgent);
      var next := Greedy(offers[1..], remain - m.fill, takerIsAgent);
      && Traded(g.trades) == m.fill + (if m.gone then Traded(next.trades) else 0.0)
      && (m.gone ==>
            Residue(offers, g) - Residue(offers[1..], next) ==
            if m.trades == [] then 0.0 else maker.volume - m.fill)
      && (!m.gone ==> Residue(offers, g) == 0.0)
  {
    var Offer(price, maker) := offers[0];
    var m := Meet(price, maker, remain, takerIsAgent);
    var next := Greedy(offers[1..], remain - m.fill, takerIsAgent);
    assert Traded(m.trades) == m.fill;
    TradedOfConcat(m.trades, next.trades);
    VolumeOfCons(maker, next.cancelled);
    OfferedOfCons(Offer(price, Reduced(maker, m.fill)), offers[1..]);
    assert [] + next.cancelled == next.cancelled;
  }

  const BALANCED: int := 33

  /** What a sweep conserves. */
  ghost predicate Balanced(offers: seq<Offer>, remain: real, g: Sweep) {
    forall x {:trigger Open(x, BALANCED)} :: Open(x, BALANCED) ==>
      && remain == Traded(g.trades) + g.remain
      && 0.0 <= Residue(offers, g) < EPS
      && (g.remain > EPS ==> g.rest == [])
  }

  lemma BalancedStop(offers: seq<Offer>, remain: real)
    requires remain <= EPS || offers == []
    ensures Balanced(offers, remain, Sweep([], [], offers, remain))
  {
  }

  lemma BalancedEnd(offers: seq<Offer>, remain: real, takerIsAgent: bool)
    requires remain > EPS && offers != []
    requires !Meet(offers[0].price, offers[0].order, remain, takerIsAgent).gone
    ensures Balanced(offers, remain, Greedy(offers, remain, takerIsAgent))
  {
    OneMeetingConserves(offers, remain, takerIsAgent);
  }

  /** A maker that leaves a residue has exhausted the taker: nothing behind it is touched. */
  lemma BalancedStep(offers: seq<Offer>, remain: real, takerIsAgent: bool)
    requires remain > EPS && offers != []
    requires Meet(offers[0].price, offers[0].order, remain, takerIsAgent).gone
    requires var m := Meet(offers[0].price, offers[0].order, remain, takerIsAgent);
      Balanced(offers[1..], remain - m.fill, Greedy(offers[1..], remain - m.fill, takerIsAgent))
    ensures Balanced(offers, remain, Greedy(offers, remain, takerIsAgent))
  {
    assert Open(0, BALANCED);
    var maker := offers[0].order;
    var m := Meet(offers[0].price, maker, remain, takerIsAgent);
    OneMeetingConserves(offers, remain, takerIsAgent);
    if m.trades != [] && m.fill != maker.volume {
      assert Residue(offers[1..], Greedy(offers[1..], 0.0, takerIsAgent)) == 0.0;
    }
  }

  lemma {:induction false} GreedyBalances(offers: seq<Offer>, remain: real, takerIsAgent: bool)
    ensures Balanced(offers, remain, Greedy(offers, remain, takerIsAgent))
  {
    if remain <= EPS || offers == [] {
      BalancedStop(offers, remain);
    } else {
      var m := Meet(offers[0].price, offers[0].order, remain, takerIsAgent);
      if m.gone {
        GreedyBalances(offers[1..], remain - m.fill, takerIsAgent);
        BalancedStep(offers, remain, takerIsAgent);
      } else {
        BalancedEnd(offers, remain, takerIsAgent);
      }
    }
  }

  /** The taker's volume is its fills plus what is left; the volume the side loses is the fills, the
      deleted agent makers and at most one rounding residue below EPS. */
  lemma GreedyConserves(offers: seq<Offer>, remain: real, takerIsAgent: bool)
    ensures var g := Greedy(offers, remain, takerIsAgent);
      && remain == Traded(g.trades) + g.remain
      && 0.0 <= Residue(offers, g) < EPS
      && (g.remain > EPS ==> g.rest == [])
  {
    GreedyBalances(offers, remain, takerIsAgent);
    assert Open(0, BALANCED);
  }

  /** Self-trade prevention: an agent taker never trades with an agent maker, and only agent makers
      reached by an agent taker are deleted untraded. */
  lemma {:induction false} NoSelfTrade(offers: seq<Offer>, remain: real, takerIsAgent: bool)
    ensures var g := Greedy(offers, remain, takerIsAgent);
      && (forall t | t in g.trades :: !(takerIsAgent && t.makerIsAgent))
      && (forall o | o in g.cancelled :: takerIsAgent && o.isAgent)
  {
    if remain > EPS && offers != [] {
      var Offer(price, maker) := offers[0];
      NoSelfTrade(offers[1..], remain - Meet(price, maker, remain, takerIsAgent).fill, takerIsAgent);
    }
  }

  /** The makers a taker may trade with, in priority order. */
  function Eligible(offers: seq<Offer>, takerIsAgent: bool): seq<Offer> {
    if offers == [] then []
    else (if offers[0].order.isAgent && takerIsAgent then [] else [offers[0]]) + Eligible(offers[1..], takerIsAgent)
  }

  /** The k-th trade is with the k-th eligible maker, for the smaller of its volume and what the makers
      before it left over; trading stops exactly when no more than EPS is left or no maker is. */
  ghost predicate InClosedForm(trades: seq<Trade>, makers: seq<Offer>, volume: real) {
    && |trades| <= |makers|
    && (forall k | 0 <= k < |trades| :: volume - Offered(makers[..k]) > EPS)
    && (forall k | 0 <= k < |trades| ::
          trades[k] == TradeWith(makers[k].price, makers[k].order,
                         Min(volume - Offered(makers[..k]), makers[k].order.volume)))
    && (|trades| < |makers| ==> volume - Offered(makers[..|trades|]) <= EPS)
  }

  lemma OfferedOfPrefix(maker: Offer, behind: seq<Offer>, k: nat)
    requires k <= |behind|
    ensures Offered(([maker] + behind)[..k + 1]) == maker.order.volume + Offered(behind[..k])
  {
    assert ([maker] + behind)[..k + 1] == [maker] + behind[..k];
    OfferedOfCons(maker, behind[..k]);
  }

  lemma ClosedFormOfCons(trade: Trade, later: seq<Trade>, maker: Offer, behind: seq<Offer>, volume: real)
    requires volume > EPS
    requires trade == TradeWith(maker.price, maker.order, Min(volume, maker.order.volume))
    requires InClosedForm(later, behind, volume - maker.order.volume)
    ensures InClosedForm([trade] + later, [maker] + behind, volume)
  {
    var trades, makers := [trade] + later, [maker] + behind;
    forall k | 0 <= k < |trades|
      ensures volume - Offered(makers[..k]) > EPS
      ensures trades[k] == TradeWith(makers[k].price, makers[k].order,
                             Min(volume - Offered(makers[..k]), makers[k].order.volume))
    {
      if k == 0 {
        assert makers[..0] == [];
      } else {
        OfferedOfPrefix(maker, behind, k - 1);
        assert volume - maker.order.volume - Offered(behind[..k - 1]) > EPS;
        assert trades[k] == later[k - 1] && makers[k] == behind[k - 1];
      }
    }
    OfferedOfPrefix(maker, behind, |later|);
  }

  lemma NoMoreFills(makers: seq<Offer>, volume: real)
    requires volume <= EPS
    ensures Closed([], makers, volume)
  {
    assert makers[..0] == [];
  }

  lemma EligibleFirst(offer: Offer, behind: seq<Offer>, takerIsAgent: bool)
    ensures Eligible([offer] + behind, takerIsAgent) ==
      if offer.order.isAgent && takerIsAgent then Eligible(behind, takerIsAgent)
      else [offer] + Eligible(behind, takerIsAgent)
  {
    assert ([offer] + behind)[1..] == behind;
  }

  /** One unfolding of the greedy rule where the first offer is traded with. */
  lemma FirstMeeting(offer: Offer, behind: seq<Offer>, volume: real, takerIsAgent: bool)
    requires volume > EPS && !(offer.order.isAgent && takerIsAgent)
    ensures var fill := Min(volume, offer.order.volume);
      var later := Greedy(behind, volume - fill, takerIsAgent).trades;
      && Eligible([offer] + behind, takerIsAgent) == [offer] + Eligible(behind, takerIsAgent)
      && Greedy([offer] + behind, volume, takerIsAgent).trades ==
           [TradeWith(offer.price, offer.order, fill)] + (if fill == offer.order.volume then later else [])
  {
    EligibleFirst(offer, behind, takerIsAgent);
    GreedyFirst(offer, behind, volume, takerIsAgent);
    if Min(volume, offer.order.volume) != offer.order.volume {
      NothingLeftToTrade(behind, takerIsAgent);
    }
  }

  lemma NothingLeftToTrade(offers: seq<Offer>, takerIsAgent: bool)
    ensures Greedy(offers, 0.0, takerIsAgent).trades == []
  {
  }

  const CLOSED: int := 31

  ghost predicate Closed(trades: seq<Trade>, makers: seq<Offer>, volume: real) {
    forall x {:trigger Open(x, CLOSED)} :: Open(x, CLOSED) ==> InClosedForm(trades, makers, volume)
  }

  lemma FillsFirst(offer: Offer, behind: seq<Offer>, volume: real, takerIsAgent: bool, later: seq<Trade>)
    requires volume > EPS && !(offer.order.isAgent && takerIsAgent)
    requires later == if offer.order.volume <= volume then Greedy(behind, volume - offer.order.volume, takerIsAgent).trades else []
    requires Closed(later, Eligible(behind, takerIsAgent), volume - offer.order.volume)
    ensures Closed(Greedy([offer] + behind, volume, takerIsAgent).trades, Eligible([offer] + behind, takerIsAgent), volume)
  {
    assert Open(0, CLOSED);
    var trade := TradeWith(offer.price, offer.order, Min(volume, offer.order.volume));
    FirstMeeting(offer, behind, volume, takerIsAgent);
    ClosedFormOfCons(trade, later, offer, Eligible(behind, takerIsAgent), volume);
    ClosedAlike([trade] + later, [offer] + Eligible(behind, takerIsAgent),
      Greedy([offer] + behind, volume, takerIsAgent).trades, Eligible([offer] + behind, takerIsAgent), volume);
  }

  lemma FillsSkipped(offer: Offer, behind: seq<Offer>, volume: real)
    requires volume > EPS && offer.order.isAgent
    requires Closed(Greedy(behind, volume, true).trades, Eligible(behind, true), volume)
    ensures Closed(Greedy([offer] + behind, volume, true).trades, Eligible([offer] + behind, true), volume)
  {
    GreedyFirst(offer, behind, volume, true);
    EligibleFirst(offer, behind, true);
    ClosedAlike(Greedy(behind, volume, true).trades, Eligible(behind, true),
      Greedy([offer] + behind, volume, true).trades, Eligible([offer] + behind, true), volume);
  }

  lemma ClosedAlike(trades: seq<Trade>, makers: seq<Offer>, trades': seq<Trade>, makers': seq<Offer>, volume: real)
    requires Closed(trades, makers, volume) && trades == trades' && makers == makers'
    ensures Closed(trades', makers', volume)
  {
  }

  lemma {:induction false} FillsAreClosed(offers: seq<Offer>, volume: real, takerIsAgent: bool)
    ensures Closed(Greedy(offers, volume, takerIsAgent).trades, Eligible(offers, takerIsAgent), volume)
  {
    if volume <= EPS {
      NoMoreFills(Eligible(offers, takerIsAgent), volume);
    } else if offers != [] {
      var offer, behind := offers[0], offers[1..];
      assert offers == [offer] + behind;
      if offer.order.isAgent && takerIsAgent {
        FillsAreClosed(behind, volume, takerIsAgent);
        FillsSkipped(offer, behind, volume);
      } else if offer.order.volume <= volume {
        FillsAreClosed(behind, volume - offer.order.volume, takerIsAgent);
        FillsFirst(offer, behind, volume, takerIsAgent, Greedy(behind, volume - offer.order.volume, takerIsAgent).trades);
      } else {
        NoMoreFills(Eligible(behind, takerIsAgent), volume - offer.order.volume);
        FillsFirst(offer, behind, volume, takerIsAgent, []);
      }
    }
  }

  /** The closed form holds of every sweep. */
  lemma FillsInClosedForm(offers: seq<Offer>, volume: real, takerIsAgent: bool)
    ensures InClosedForm(Greedy(offers, volume, takerIsAgent).trades, Eligible(offers, takerIsAgent), volume)
  {
    FillsAreClosed(offers, volume, takerIsAgent);
    assert Open(0, CLOSED);
  }

  // ---------- how many makers are filled ----------

  lemma {:induction false} EligibleOfConcat(a: seq<Offer>, b: seq<Offer>, takerIsAgent: bool)
    ensures Eligible(a + b, takerIsAgent) == Eligible(a, takerIsAgent) + Eligible(b, takerIsAgent)
  {
    if a == [] {
      assert a + b == b;
    } else {
      EligibleOfConcat(a[1..], b, takerIsAgent);
      assert (a + b)[1..] == a[1..] + b;
      var head := if a[0].order.isAgent && takerIsAgent then [] else [a[0]];
      Associative(head, Eligible(a[1..], takerIsAgent), Eligible(b, takerIsAgent));
    }
  }

  lemma EligibleOfFirst(price: int, order: Order, rest: Queue, takerIsAgent: bool)
    ensures |Eligible(Tag(price, [order] + rest), takerIsAgent)| ==
      (if order.isAgent && takerIsAgent then 0 else 1) + |Eligible(Tag(price, rest), takerIsAgent)|
  {
    assert Tag(price, [order] + rest)[1..] == Tag(price, rest);
  }

  lemma {:induction false} QueueFills(price: int, queue: Queue, remain: real, takerIsAgent: bool)
    ensures var r := WalkQueue(price, queue, remain, takerIsAgent);
      |Eligible(Tag(price, queue), takerIsAgent)| == r.filled + |Eligible(Tag(price, r.queue), takerIsAgent)|
  {
    if queue != [] && remain > EPS {
      var m := Meet(price, queue[0], remain, takerIsAgent);
      assert queue == [queue[0]] + queue[1..];
      EligibleOfFirst(price, queue[0], queue[1..], takerIsAgent);
      if m.gone {
        QueueFills(price, queue[1..], remain - m.fill, takerIsAgent);
      } else {
        EligibleOfFirst(price, Reduced(queue[0], m.fill), queue[1..], takerIsAgent);
      }
    }
  }

  lemma LevelFills(s: Book, hit: bool, remain: real, takerIsAgent: bool)
    requires s.Side(hit) != map[]
    ensures var price := Best(hit, s.Side(hit));
      var queue := s.Side(hit)[price];
      var r := WalkQueue(price, queue, remain, takerIsAgent);
      var t := AfterQueue(s, hit, price, r.queue, PopIndex(s.index, queue, r.popped));
      |Eligible(Flat(hit, s.Side(hit)), takerIsAgent)| == r.filled + |Eligible(Flat(hit, t.Side(hit)), takerIsAgent)|
  {
    var price := Best(hit, s.Side(hit));
    var queue, tail := s.Side(hit)[price], Flat(hit, s.Side(hit) - {price});
    var r := WalkQueue(price, queue, remain, takerIsAgent);
    QueueFills(price, queue, remain, takerIsAgent);
    EligibleOfConcat(Tag(price, queue), tail, takerIsAgent);
    FlatOfPut(hit, s.Side(hit), r.queue);
    EligibleOfConcat(Tag(price, r.queue), tail, takerIsAgent);
  }

  /** The number of makers reported as fully executed is the number of eligible orders that leave the side. */
  lemma {:induction false} WalkFills(s: Book, hit: bool, remain: real, takerIsAgent: bool)
    ensures var w := Walk(s, hit, remain, takerIsAgent);
      |Eligible(Flat(hit, s.Side(hit)), takerIsAgent)| == w.filled + |Eligible(Flat(hit, w.book.Side(hit)), takerIsAgent)|
    decreases |s.Side(hit)|
  {
    if remain > EPS && s.Side(hit) != map[] {
      var price := Best(hit, s.Side(hit));
      var queue := s.Side(hit)[price];
      var r := WalkQueue(price, queue, remain, takerIsAgent);
      LevelFills(s, hit, remain, takerIsAgent);
      if r.queue == [] {
        FewerLevels(s.Side(hit), price);
        WalkFills(AfterQueue(s, hit, price, r.queue, PopIndex(s.index, queue, r.popped)), hit, r.remain, takerIsAgent);
      }
    }
  }

  // ---------- which orders an agent taker deletes ----------

  /** An agent taker gets as far as the k-th offer: what the eligible makers before it, and before every earlier
      offer, leave of the volume is worth trading. */
  ghost predicate Meets(offers: seq<Offer>, volume: real, k: nat)
    requires k < |offers|
  {
    forall j: nat | j <= k :: volume - Offered(Eligible(offers[..j], true)) > EPS
  }

  ghost predicate Offers(offers: seq<Offer>, id: int) {
    exists i :: 0 <= i < |offers| && offers[i].order.id == id
  }

  lemma EligibleOfPrefix(offer: Offer, behind: seq<Offer>, j: nat)
    requires j <= |behind|
    ensures Offered(Eligible(([offer] + behind)[..j + 1], true)) ==
      (if offer.order.isAgent then 0.0 else offer.order.volume) + Offered(Eligible(behind[..j], true))
  {
    var prefix := ([offer] + behind)[..j + 1];
    assert prefix[1..] == behind[..j];
    if offer.order.isAgent {
      assert [] + Eligible(behind[..j], true) == Eligible(behind[..j], true);
    } else {
      OfferedOfCons(offer, Eligible(behind[..j], true));
    }
  }

  lemma MeetsOfCons(offer: Offer, behind: seq<Offer>, volume: real, left: real, k: nat)
    requires k < |behind| && left == if offer.order.isAgent then volume else volume - offer.order.volume
    ensures Meets([offer] + behind, volume, k + 1) <==> volume > EPS && Meets(behind, left, k)
  {
    var offers := [offer] + behind;
    assert offers[..0] == [];
    if Meets(offers, volume, k + 1) {
      assert volume - Offered(Eligible(offers[..0], true)) > EPS;
      forall j: nat | j <= k ensures left - Offered(Eligible(behind[..j], true)) > EPS {
        EligibleOfPrefix(offer, behind, j);
        var next: nat := j + 1;
        assert volume - Offered(Eligible(offers[..next], true)) > EPS;
      }
    }
    if volume > EPS && Meets(behind, left, k) {
      forall j: nat | j <= k + 1 ensures volume - Offered(Eligible(offers[..j], true)) > EPS {
        if j > 0 {
          EligibleOfPrefix(offer, behind, j - 1);
          assert left - Offered(Eligible(behind[..j - 1], true)) > EPS;
        }
      }
    }
  }

  lemma {:induction false} RestIsOffered(offers: seq<Offer>, remain: real, takerIsAgent: bool, id: int)
    requires Offers(Greedy(offers, remain, takerIsAgent).rest, id)
    ensures Offers(offers, id)
  {
    if remain > EPS && offers != [] {
      var offer, behind := offers[0], offers[1..];
      assert offers == [offer] + behind;
      GreedyFirst(offer, behind, remain, takerIsAgent);
      var m := Meet(offer.price, offer.order, remain, takerIsAgent);
      if m.gone {
        RestIsOffered(behind, remain - m.fill, takerIsAgent, id);
        var i :| 0 <= i < |behind| && behind[i].order.id == id;
        assert offers[i + 1].order.id == id;
      } else {
        var rest := Greedy(offers, remain, takerIsAgent).rest;
        var i :| 0 <= i < |rest| && rest[i].order.id == id;
        assert offers[i].order.id == id;
      }
    }
  }

  ghost predicate DistinctOffers(offers: seq<Offer>) {
    forall i, j | 0 <= i < j < |offers| :: offers[i].order.id != offers[j].order.id
  }

  lemma FirstIsNotBehind(offer: Offer, behind: seq<Offer>)
    requires DistinctOffers([offer] + behind)
    ensures !Offers(behind, offer.order.id)
  {
    var offers := [offer] + behind;
    forall i | 0 <= i < |behind| ensures behind[i].order.id != offer.order.id {
      assert offers[0].order.id != offers[i + 1].order.id;
    }
  }

  lemma BehindStays(offer: Offer, behind: seq<Offer>, remain: real, k: nat)
    requires remain > EPS && k < |behind| && !offer.order.isAgent && offer.order.volume > remain
    ensures Offers(Greedy([offer] + behind, remain, true).rest, behind[k].order.id)
  {
    GreedyFirst(offer, behind, remain, true);
    var rest := Greedy([offer] + behind, remain, true).rest;
    if rest != behind {
      assert rest[k + 1] == behind[k];
    } else {
      assert rest[k] == behind[k];
    }
  }

  /** Of the agent makers an agent taker deletes exactly those it meets, whatever the volumes. */
  lemma {:induction false} DeletesExactlyWhatItMeets(offers: seq<Offer>, volume: real, k: nat)
    requires k < |offers| && offers[k].order.isAgent && DistinctOffers(offers)
    ensures Offers(Greedy(offers, volume, true).rest, offers[k].order.id) <==> !Meets(offers, volume, k)
  {
    assert offers[..0] == [];
    if volume <= EPS {
      assert Greedy(offers, volume, true).rest == offers;
      var zero: nat := 0;
      assert !(volume - Offered(Eligible(offers[..zero], true)) > EPS);
    } else {
      var offer, behind := offers[0], offers[1..];
      assert offers == [offer] + behind;
      var left := if offer.order.isAgent then volume else volume - offer.order.volume;
      if k > 0 {
        MeetsOfCons(offer, behind, volume, left, k - 1);
        DeletesExactlyWhatItMeets(behind, left, k - 1);
      }
      DeletedFirst(offer, behind, volume, left, k);
    }
  }

  lemma DeletedFirst(offer: Offer, behind: seq<Offer>, volume: real, left: real, k: nat)
    requires volume > EPS && k <= |behind| && DistinctOffers([offer] + behind) && ([offer] + behind)[k].order.isAgent
    requires left == if offer.order.isAgent then volume else volume - offer.order.volume
    requires k > 0 ==>
      && (Offers(Greedy(behind, left, true).rest, behind[k - 1].order.id) <==> !Meets(behind, left, k - 1))
      && (Meets([offer] + behind, volume, k) <==> Meets(behind, left, k - 1))
    ensures Offers(Greedy([offer] + behind, volume, true).rest, ([offer] + behind)[k].order.id) <==>
      !Meets([offer] + behind, volume, k)
  {
    var offers := [offer] + behind;
    GreedyFirst(offer, behind, volume, true);
    assert offers[..0] == [];
    if k == 0 {
      assert Greedy(offers, volume, true).rest == Greedy(behind, volume, true).rest;
      FirstIsNotBehind(offer, behind);
      if Offers(Greedy(behind, volume, true).rest, offer.order.id) {
        RestIsOffered(behind, volume, true, offer.order.id);
      }
    } else if !offer.order.isAgent && offer.order.volume > volume {
      BehindStays(offer, behind, volume, k - 1);
      var zero: nat := 0;
      assert behind[..zero] == [] && !(left - Offered(Eligible(behind[..zero], true)) > EPS);
    }
  }

  // ---------- invariants ----------

  /** Popping the front order of a level is removing it at position 0. */
  lemma PopIsRemove(s: Book, hit: bool, price: int)
    requires price in s.Side(hit) && s.Side(hit)[price] != []
    ensures var queue := s.Side(hit)[price];
      RemoveAt(s, hit, price, 0) ==
      AfterQueue(s, hit, price, queue[1..], Reindex(s.index - {queue[0].id}, queue[1..], 0))
  {
    assert Drop(s.Side(hit)[price], 0) == s.Side(hit)[price][1..];
  }

  lemma AfterQueueTwice(s: Book, hit: bool, price: int, queue: Queue, index: Index, queue': Queue, index': Index)
    ensures AfterQueue(AfterQueue(s, hit, price, queue, index), hit, price, queue', index')
         == AfterQueue(s, hit, price, queue', index')
  {
    assert Put(Put(s.Side(hit), price, queue), price, queue') == Put(s.Side(hit), price, queue');
  }

  /** Taking the front order off a level n times. */
  function Pops(s: Book, hit: bool, price: int, n: nat): Book
    decreases n
  {
    if n == 0 || price !in s.Side(hit) || s.Side(hit)[price] == [] then s
    else Pops(RemoveAt(s, hit, price, 0), hit, price, n - 1)
  }

  lemma {:induction false} PopsKeep(s: Book, hit: bool, price: int, n: nat)
    requires Sound(s)
    ensures Sound(Pops(s, hit, price, n)) && (Exact(s) ==> Exact(Pops(s, hit, price, n)))
    decreases n
  {
    if n > 0 && price in s.Side(hit) && s.Side(hit)[price] != [] {
      RemoveAtKeeps(s, hit, price, 0);
      PopsKeep(RemoveAt(s, hit, price, 0), hit, price, n - 1);
    }
  }

  lemma {:induction false} PopsAreQueueUpdates(s: Book, hit: bool, price: int, n: nat)
    requires price in s.Side(hit) && s.Side(hit)[price] != [] && n <= |s.Side(hit)[price]|
    ensures var queue := s.Side(hit)[price];
      Pops(s, hit, price, n) == AfterQueue(s, hit, price, queue[n..], PopIndex(s.index, queue, n))
    decreases n
  {
    var queue := s.Side(hit)[price];
    if n == 0 {
      assert queue[0..] == queue;
    } else {
      PopIsRemove(s, hit, price);
      var u := RemoveAt(s, hit, price, 0);
      if |queue| > 1 {
        PopsAreQueueUpdates(u, hit, price, n - 1);
        AfterQueueTwice(s, hit, price, queue[1..], u.index, queue[1..][n - 1..], PopIndex(u.index, queue[1..], n - 1));
      }
      assert queue[1..][n - 1..] == queue[n..];
    }
  }

  /** What the inner loop leaves is a suffix of the level, its front order perhaps reduced. */
  lemma {:induction false} WalkQueueShape(price: int, queue: Queue, remain: real, takerIsAgent: bool)
    ensures var r := WalkQueue(price, queue, remain, takerIsAgent);
      r.queue != [] ==> exists volume ::
        r.queue == [queue[r.popped].(volume := volume)] + queue[r.popped..][1..]
  {
    var r := WalkQueue(price, queue, remain, takerIsAgent);
    if queue == [] {
    } else if remain <= EPS {
      assert r.queue == [queue[0].(volume := queue[0].volume)] + queue[0..][1..];
    } else {
      var m := Meet(price, queue[0], remain, takerIsAgent);
      if m.gone {
        WalkQueueShape(price, queue[1..], remain - m.fill, takerIsAgent);
        if r.queue != [] {
          var k := r.popped - 1;
          var volume :| r.queue == [queue[1..][k].(volume := volume)] + queue[1..][k..][1..];
          assert queue[1..][k..] == queue[k + 1..];
          assert r.queue == [queue[r.popped].(volume := volume)] + queue[r.popped..][1..];
        }
      } else {
        assert r.queue == [queue[0].(volume := queue[0].volume - m.fill)] + queue[0..][1..];
      }
    }
  }

  lemma VolumeChangeKeeps(s: Book, isBuy: bool, price: int, volume: real)
    requires price in s.Side(isBuy) && s.Side(isBuy)[price] != []
    ensures var queue := s.Side(isBuy)[price];
      var t := s.WithSide(isBuy, s.Side(isBuy)[price := [queue[0].(volume := volume)] + queue[1..]]);
      (Sound(s) ==> Sound(t)) && (Exact(s) ==> Exact(t))
  {
    var queue := s.Side(isBuy)[price];
    SameIdsKeep(s, s.WithSide(isBuy, s.Side(isBuy)[price := [queue[0].(volume := volume)] + queue[1..]]));
  }

  lemma WalkQueueKeeps(s: Book, hit: bool, price: int, remain: real, takerIsAgent: bool)
    requires Sound(s) && price in s.Side(hit)
    ensures var queue := s.Side(hit)[price];
      var r := WalkQueue(price, queue, remain, takerIsAgent);
      var t := AfterQueue(s, hit, price, r.queue, PopIndex(s.index, queue, r.popped));
      Sound(t) && (Exact(s) ==> Exact(t))
  {
    var queue := s.Side(hit)[price];
    var r := WalkQueue(price, queue, remain, takerIsAgent);
    var index' := PopIndex(s.index, queue, r.popped);
    assert QueueSound(queue, price, hit, s.index);
    PopsKeep(s, hit, price, r.popped);
    PopsAreQueueUpdates(s, hit, price, r.popped);
    if r.queue != [] {
      WalkQueueShape(price, queue, remain, takerIsAgent);
      var volume :| r.queue == [queue[r.popped].(volume := volume)] + queue[r.popped..][1..];
      var u := AfterQueue(s, hit, price, queue[r.popped..], index');
      VolumeChangeKeeps(u, hit, price, volume);
      AfterQueueTwice(s, hit, price, queue[r.popped..], index', r.queue, index');
    }
  }

  /** Market matching keeps both agreements of levels and index. */
  lemma {:induction false} WalkKeeps(s: Book, hit: bool, remain: real, takerIsAgent: bool)
    requires Sound(s)
    ensures var t := Walk(s, hit, remain, takerIsAgent).book;
      Sound(t) && (Exact(s) ==> Exact(t))
    decreases |s.Side(hit)|
  {
    if remain > EPS && s.Side(hit) != map[] {
      var price := Best(hit, s.Side(hit));
      var queue := s.Side(hit)[price];
      var r := WalkQueue(price, queue, remain, takerIsAgent);
      WalkQueueKeeps(s, hit, price, remain, takerIsAgent);
      if r.queue == [] {
        FewerLevels(s.Side(hit), price);
        WalkKeeps(AfterQueue(s, hit, price, r.queue, PopIndex(s.index, queue, r.popped)), hit, r.remain, takerIsAgent);
      }
    }
  }
}
