/** Limit matching: its walk, the flat rule it refines, the closed form of its fills, conservation of
    volume, and the invariant it keeps. */
module Limit {
  import opened Sequences
  import opened KeyOrder
  import opened BookState
  import opened Reals
  import opened Folded
  import M = Market

  type Trade = M.Trade
  type Offer = M.Offer

  const TINY: real := 0.000000000001

  function FillOf(maker: Order, remain: real): real {
    if maker.volume < remain then maker.volume else remain
  }

  // ---------- the nested loops, as recursion ----------

  datatype QueueRun = QueueRun(queue: Queue, remain: real, trades: seq<Trade>, popped: nat)

  /** The inner loop over one level; `room` is how many trades the caller's buffers still hold. */
  function LimitQueue(price: int, queue: Queue, remain: real, room: int): (r: QueueRun)
    ensures r.queue != [] ==> r.remain <= TINY || |r.trades| >= room
    ensures r.popped + |r.queue| == |queue|
    ensures |r.trades| <= if room < 0 then 0 else room
  {
    if queue == [] || remain <= TINY || room <= 0 then QueueRun(queue, remain, [], 0) else
      var fill := FillOf(queue[0], remain);
      var trade := M.TradeWith(price, queue[0], fill);
      if queue[0].volume - fill <= TINY then
        var r := LimitQueue(price, queue[1..], remain - fill, room - 1);
        r.(trades := [trade] + r.trades, popped := 1 + r.popped)
      else
        QueueRun([M.Reduced(queue[0], fill)] + queue[1..], remain - fill, [trade], 0)
  }

  /** Erasing the ids of popped orders; nothing is renumbered. */
  function Erased(index: Index, popped: Queue): Index {
    if popped == [] then index else Erased(index - {popped[0].id}, popped[1..])
  }

  datatype Run = Run(book: Book, remain: real, trades: seq<Trade>)

  /** The outer loop: best level first, up to the first level beyond the limit. */
  function LimitWalk(s: Book, hit: bool, limit: int, remain: real, room: int): (run: Run)
    ensures |run.trades| <= if room < 0 then 0 else room
    decreases |s.Side(hit)|
  {
    if remain <= TINY || room <= 0 || s.Side(hit) == map[] || Before(hit, limit, Best(hit, s.Side(hit)))
    then Run(s, remain, [])
    else
      var price := Best(hit, s.Side(hit));
      var queue := s.Side(hit)[price];
      var r := LimitQueue(price, queue, remain, room);
      var t := M.AfterQueue(s, hit, price, r.queue, Erased(s.index, queue[..r.popped]));
      if r.queue == [] then
        M.FewerLevels(s.Side(hit), price);
        var next := LimitWalk(t, hit, limit, r.remain, room - |r.trades|);
        next.(trades := r.trades + next.trades)
      else
        Run(t, r.remain, r.trades)
  }

  /** One round of the outer loop. */
  lemma LimitWalkRound(s: Book, hit: bool, limit: int, remain: real, room: int, price: int)
    requires remain > TINY && room > 0 && s.Side(hit) != map[] && price == Best(hit, s.Side(hit)) && !Before(hit, limit, price)
    ensures var queue := s.Side(hit)[price];
      var r := LimitQueue(price, queue, remain, room);
      var t := M.AfterQueue(s, hit, price, r.queue, Erased(s.index, queue[..r.popped]));
      var w, next := LimitWalk(s, hit, limit, remain, room), LimitWalk(t, hit, limit, r.remain, room - |r.trades|);
      if r.queue == [] then w == next.(trades := r.trades + next.trades)
      else w == Run(t, r.remain, r.trades)
  {
  }

  // ---------- the flat rule ----------

  datatype Sweep = Sweep(trades: seq<Trade>, rest: seq<Offer>, remain: real)

  predicate Stops(offers: seq<Offer>, hit: bool, limit: int, remain: real, room: int) {
    remain <= TINY || room <= 0 || offers == [] || Before(hit, limit, offers[0].price)
  }

  /** Trade with the best offer within the limit while volume and room remain. */
  function Greedy(offers: seq<Offer>, hit: bool, limit: int, remain: real, room: int): (g: Sweep)
    ensures |g.trades| <= if room < 0 then 0 else room
  {
    if Stops(offers, hit, limit, remain, room) then Sweep([], offers, remain) else
      var maker := offers[0].order;
      var fill := FillOf(maker, remain);
      var trade := M.TradeWith(offers[0].price, maker, fill);
      if maker.volume - fill <= TINY then
        var g := Greedy(offers[1..], hit, limit, remain - fill, room - 1);
        g.(trades := [trade] + g.trades)
      else
        Sweep([trade], [M.Offer(offers[0].price, M.Reduced(maker, fill))] + offers[1..], remain - fill)
  }

  lemma GreedyFirst(offer: Offer, behind: seq<Offer>, hit: bool, limit: int, remain: real, room: int)
    requires remain > TINY && room > 0 && !Before(hit, limit, offer.price)
    ensures var fill := FillOf(offer.order, remain);
      var trade := M.TradeWith(offer.price, offer.order, fill);
      var next := Greedy(behind, hit, limit, remain - fill, room - 1);
      Greedy([offer] + behind, hit, limit, remain, room) ==
      if offer.order.volume - fill <= TINY then next.(trades := [trade] + next.trades)
      else Sweep([trade], [M.Offer(offer.price, M.Reduced(offer.order, fill))] + behind, remain - fill)
  {
    assert ([offer] + behind)[1..] == behind;
  }

  function Continue(price: int, r: QueueRun, tail: seq<Offer>, hit: bool, limit: int, room: int): Sweep {
    if r.queue == [] then
      var g := Greedy(tail, hit, limit, r.remain, room - |r.trades|);
      g.(trades := r.trades + g.trades)
    else
      Sweep(r.trades, M.Tag(price, r.queue) + tail, r.remain)
  }

  ghost predicate QueueIsGreedy(
      price: int, queue: Queue, hit: bool, limit: int, remain: real, room: int, tail: seq<Offer>)
  {
    Greedy(M.Tag(price, queue) + tail, hit, limit, remain, room) ==
    Continue(price, LimitQueue(price, queue, remain, room), tail, hit, limit, room)
  }

  lemma TakenInPart(price: int, maker: Order, rest: Queue, hit: bool, limit: int, remain: real, room: int, tail: seq<Offer>)
    requires !Before(hit, limit, price) && remain > TINY && room > 0
    requires maker.volume - FillOf(maker, remain) > TINY
    ensures QueueIsGreedy(price, [maker] + rest, hit, limit, remain, room, tail)
  {
    var left := M.Reduced(maker, FillOf(maker, remain));
    assert ([maker] + rest)[1..] == rest && ([left] + rest)[1..] == rest;
    M.TagSplit(price, [maker] + rest, tail);
    M.TagSplit(price, [left] + rest, tail);
    GreedyFirst(M.Offer(price, maker), M.Tag(price, rest) + tail, hit, limit, remain, room);
  }

  lemma TakenWhole(price: int, maker: Order, rest: Queue, hit: bool, limit: int, remain: real, room: int, tail: seq<Offer>)
    requires !Before(hit, limit, price) && remain > TINY && room > 0
    requires maker.volume - FillOf(maker, remain) <= TINY
    requires QueueIsGreedy(price, rest, hit, limit, remain - FillOf(maker, remain), room - 1, tail)
    ensures QueueIsGreedy(price, [maker] + rest, hit, limit, remain, room, tail)
  {
    var fill := FillOf(maker, remain);
    assert ([maker] + rest)[1..] == rest;
    M.TagSplit(price, [maker] + rest, tail);
    GreedyFirst(M.Offer(price, maker), M.Tag(price, rest) + tail, hit, limit, remain, room);
    ContinueOfCons(price, M.TradeWith(price, maker, fill),
      LimitQueue(price, rest, remain - fill, room - 1), tail, hit, limit, room);
  }

  lemma {:induction false} LimitQueueIsGreedy(
      price: int, queue: Queue, hit: bool, limit: int, remain: real, room: int, tail: seq<Offer>)
    requires !Before(hit, limit, price)
    ensures QueueIsGreedy(price, queue, hit, limit, remain, room, tail)
    decreases |queue|
  {
    if queue == [] {
      assert M.Tag(price, queue) + tail == tail;
    } else if remain > TINY && room > 0 {
      var maker, rest := queue[0], queue[1..];
      assert queue == [maker] + rest;
      if maker.volume - FillOf(maker, remain) <= TINY {
        LimitQueueIsGreedy(price, rest, hit, limit, remain - FillOf(maker, remain), room - 1, tail);
        TakenWhole(price, maker, rest, hit, limit, remain, room, tail);
      } else {
        TakenInPart(price, maker, rest, hit, limit, remain, room, tail);
      }
    }
  }

  lemma ContinueOfCons(price: int, trade: Trade, r: QueueRun, tail: seq<Offer>, hit: bool, limit: int, room: int)
    ensures var next := Continue(price, r, tail, hit, limit, room - 1);
      Continue(price, r.(trades := [trade] + r.trades, popped := 1 + r.popped), tail, hit, limit, room)
      == next.(trades := [trade] + next.trades)
  {
    Associative([trade], r.trades, Greedy(tail, hit, limit, r.remain, room - 1 - |r.trades|).trades);
  }

  /** The best level against the flat rule. */
  lemma LimitLevelIsGreedy(s: Book, hit: bool, limit: int, remain: real, room: int, price: int)
    requires s.Side(hit) != map[] && price == Best(hit, s.Side(hit)) && !Before(hit, limit, price)
    ensures var levels := s.Side(hit);
      var r := LimitQueue(price, levels[price], remain, room);
      var t := M.AfterQueue(s, hit, price, r.queue, Erased(s.index, levels[price][..r.popped]));
      var tail := M.Flat(hit, levels - {price});
      && Greedy(M.Flat(hit, levels), hit, limit, remain, room) == Continue(price, r, tail, hit, limit, room)
      && M.Flat(hit, t.Side(hit)) == M.Tag(price, r.queue) + tail
      && (r.queue == [] ==> t.Side(hit) == levels - {price})
      && t.Side(!hit) == s.Side(!hit)
  {
    var levels := s.Side(hit);
    var tail := M.Flat(hit, levels - {price});
    assert M.Flat(hit, levels) == M.Tag(price, levels[price]) + tail;
    LimitQueueIsGreedy(price, levels[price], hit, limit, remain, room, tail);
    M.FlatOfPut(hit, levels, LimitQueue(price, levels[price], remain, room).queue);
  }

  /** A walk and a sweep that trade and leave behind the same. */
  ghost predicate Alike(s: Book, hit: bool, w: Run, g: Sweep) {
    && w.trades == g.trades
    && w.remain == g.remain
    && M.Flat(hit, w.book.Side(hit)) == g.rest
    && w.book.Side(!hit) == s.Side(!hit)
  }

  lemma AlikeBehind(s: Book, t: Book, hit: bool, w: Run, g: Sweep, trades: seq<Trade>)
    requires Alike(t, hit, w, g) && t.Side(!hit) == s.Side(!hit)
    ensures Alike(s, hit, w.(trades := trades + w.trades), g.(trades := trades + g.trades))
  {
  }

  /** A level that is used up: the walk and the flat rule go on with the rest of the side. */
  lemma LevelUsedUp(s: Book, hit: bool, limit: int, remain: real, room: int, price: int) returns (t: Book)
    requires s.Side(hit) != map[] && price == Best(hit, s.Side(hit)) && !Before(hit, limit, price) && remain > TINY && room > 0
    requires LimitQueue(price, s.Side(hit)[price], remain, room).queue == []
    ensures t.Side(hit) == s.Side(hit) - {price} && t.Side(!hit) == s.Side(!hit) && |t.Side(hit)| < |s.Side(hit)|
    ensures var r := LimitQueue(price, s.Side(hit)[price], remain, room);
      var next := LimitWalk(t, hit, limit, r.remain, room - |r.trades|);
      var more := Greedy(M.Flat(hit, t.Side(hit)), hit, limit, r.remain, room - |r.trades|);
      && LimitWalk(s, hit, limit, remain, room) == next.(trades := r.trades + next.trades)
      && Greedy(M.Flat(hit, s.Side(hit)), hit, limit, remain, room) == more.(trades := r.trades + more.trades)
  {
    var queue := s.Side(hit)[price];
    var r := LimitQueue(price, queue, remain, room);
    t := M.AfterQueue(s, hit, price, r.queue, Erased(s.index, queue[..r.popped]));
    LimitWalkRound(s, hit, limit, remain, room, price);
    SweepGoesOn(s, hit, limit, remain, room, price);
    M.FewerLevels(s.Side(hit), price);
  }

  lemma AlikeAfterLevel(s: Book, t: Book, hit: bool, limit: int, remain: real, room: int, left: real, space: int, trades: seq<Trade>)
    requires t.Side(!hit) == s.Side(!hit)
    requires Alike(t, hit, LimitWalk(t, hit, limit, left, space), Greedy(M.Flat(hit, t.Side(hit)), hit, limit, left, space))
    requires var next := LimitWalk(t, hit, limit, left, space);
      var more := Greedy(M.Flat(hit, t.Side(hit)), hit, limit, left, space);
      && LimitWalk(s, hit, limit, remain, room) == next.(trades := trades + next.trades)
      && Greedy(M.Flat(hit, s.Side(hit)), hit, limit, remain, room) == more.(trades := trades + more.trades)
    ensures Alike(s, hit, LimitWalk(s, hit, limit, remain, room),
              Greedy(M.Flat(hit, s.Side(hit)), hit, limit, remain, room))
  {
    AlikeBehind(s, t, hit, LimitWalk(t, hit, limit, left, space), Greedy(M.Flat(hit, t.Side(hit)), hit, limit, left, space), trades);
  }

  lemma SweepGoesOn(s: Book, hit: bool, limit: int, remain: real, room: int, price: int)
    requires s.Side(hit) != map[] && price == Best(hit, s.Side(hit)) && !Before(hit, limit, price)
    requires LimitQueue(price, s.Side(hit)[price], remain, room).queue == []
    ensures var r := LimitQueue(price, s.Side(hit)[price], remain, room);
      var t := M.AfterQueue(s, hit, price, r.queue, Erased(s.index, s.Side(hit)[price][..r.popped]));
      var more := Greedy(M.Flat(hit, t.Side(hit)), hit, limit, r.remain, room - |r.trades|);
      && t.Side(hit) == s.Side(hit) - {price} && t.Side(!hit) == s.Side(!hit)
      && Greedy(M.Flat(hit, s.Side(hit)), hit, limit, remain, room) == more.(trades := r.trades + more.trades)
  {
    LimitLevelIsGreedy(s, hit, limit, remain, room, price);
  }

  lemma LevelNotUsedUp(s: Book, hit: bool, limit: int, remain: real, room: int, price: int)
    requires s.Side(hit) != map[] && price == Best(hit, s.Side(hit)) && !Before(hit, limit, price) && remain > TINY && room > 0
    requires LimitQueue(price, s.Side(hit)[price], remain, room).queue != []
    ensures Alike(s, hit, LimitWalk(s, hit, limit, remain, room),
              Greedy(M.Flat(hit, s.Side(hit)), hit, limit, remain, room))
  {
    LimitLevelIsGreedy(s, hit, limit, remain, room, price);
  }

  lemma WalkStops(s: Book, hit: bool, limit: int, remain: real, room: int)
    requires forall p | p in s.Side(hit) :: s.Side(hit)[p] != []
    requires remain <= TINY || room <= 0 || s.Side(hit) == map[] || Before(hit, limit, Best(hit, s.Side(hit)))
    ensures Alike(s, hit, LimitWalk(s, hit, limit, remain, room),
              Greedy(M.Flat(hit, s.Side(hit)), hit, limit, remain, room))
  {
    if s.Side(hit) != map[] {
      FlatStarts(hit, s.Side(hit));
    }
  }

  lemma {:induction false} WalkIsAlike(s: Book, hit: bool, limit: int, remain: real, room: int)
    requires forall p | p in s.Side(hit) :: s.Side(hit)[p] != []
    ensures Alike(s, hit, LimitWalk(s, hit, limit, remain, room),
              Greedy(M.Flat(hit, s.Side(hit)), hit, limit, remain, room))
    decreases |s.Side(hit)|
  {
    if remain <= TINY || room <= 0 || s.Side(hit) == map[] || Before(hit, limit, Best(hit, s.Side(hit))) {
      WalkStops(s, hit, limit, remain, room);
    } else {
      var price := Best(hit, s.Side(hit));
      if LimitQueue(price, s.Side(hit)[price], remain, room).queue == [] {
        var r := LimitQueue(price, s.Side(hit)[price], remain, room);
        var t := LevelUsedUp(s, hit, limit, remain, room, price);
        WalkIsAlike(t, hit, limit, r.remain, room - |r.trades|);
        AlikeAfterLevel(s, t, hit, limit, remain, room, r.remain, room - |r.trades|, r.trades);
      } else {
        LevelNotUsedUp(s, hit, limit, remain, room, price);
      }
    }
  }

  /** The nested loops trade, and leave behind, exactly what the flat rule says. */
  lemma LimitWalkIsGreedy(s: Book, hit: bool, limit: int, remain: real, room: int)
    requires forall p | p in s.Side(hit) :: s.Side(hit)[p] != []
    ensures var w := LimitWalk(s, hit, limit, remain, room);
      var g := Greedy(M.Flat(hit, s.Side(hit)), hit, limit, remain, room);
      && w.trades == g.trades
      && w.remain == g.remain
      && M.Flat(hit, w.book.Side(hit)) == g.rest
      && w.book.Side(!hit) == s.Side(!hit)
  {
    WalkIsAlike(s, hit, limit, remain, room);
  }

  lemma FlatStarts(hit: bool, levels: Levels)
    requires levels != map[] && forall p | p in levels :: levels[p] != []
    ensures M.Flat(hit, levels) != [] && M.Flat(hit, levels)[0].price == Best(hit, levels)
  {
  }

  // ---------- what the flat rule means ----------

  /** The k-th trade is with the k-th offer, within the limit, for the smaller of its volume and what the
      offers before it left over; trading stops exactly when the room is used up, no more than TINY is
      left, nothing is offered, or the next offer is beyond the limit. */
  ghost predicate InClosedForm(trades: seq<Trade>, offers: seq<Offer>, hit: bool, limit: int, volume: real, room: int) {
    var n := |trades|;
    && n <= |offers|
    && (forall k | 0 <= k < n :: !Before(hit, limit, offers[k].price))
    && (forall k | 0 <= k < n :: volume - M.Offered(offers[..k]) > TINY)
    && (forall k | 0 <= k < n ::
          trades[k] == M.TradeWith(offers[k].price, offers[k].order,
                         Min(volume - M.Offered(offers[..k]), offers[k].order.volume)))
    && n <= (if room < 0 then 0 else room)
    && (n < room ==>
          || n == |offers|
          || Before(hit, limit, offers[n].price)
          || volume - M.Offered(offers[..n]) <= TINY)
  }

  const CLOSED: int := 32

  ghost predicate Closed(trades: seq<Trade>, offers: seq<Offer>, hit: bool, limit: int, volume: real, room: int) {
    forall x {:trigger Open(x, CLOSED)} :: Open(x, CLOSED) ==> InClosedForm(trades, offers, hit, limit, volume, room)
  }

  lemma StoppedForm(offers: seq<Offer>, hit: bool, limit: int, volume: real, room: int)
    requires Stops(offers, hit, limit, volume, room)
    ensures Closed([], offers, hit, limit, volume, room)
  {
    assert offers[..0] == [];
  }

  lemma FillOfCons(trade: Trade, later: seq<Trade>, offer: Offer, behind: seq<Offer>,
      hit: bool, limit: int, volume: real, room: int, k: nat)
    requires InClosedForm(later, behind, hit, limit, volume - offer.order.volume, room - 1) && k < |later|
    ensures var trades, offers := [trade] + later, [offer] + behind;
      && !Before(hit, limit, offers[k + 1].price)
      && volume - M.Offered(offers[..k + 1]) > TINY
      && trades[k + 1] == M.TradeWith(offers[k + 1].price, offers[k + 1].order,
                            Min(volume - M.Offered(offers[..k + 1]), offers[k + 1].order.volume))
  {
    M.OfferedOfPrefix(offer, behind, k);
    assert volume - offer.order.volume - M.Offered(behind[..k]) > TINY;
  }

  lemma ClosedFormOfCons(trade: Trade, later: seq<Trade>, offer: Offer, behind: seq<Offer>,
      hit: bool, limit: int, volume: real, room: int)
    requires volume > TINY && room > 0 && !Before(hit, limit, offer.price)
    requires trade == M.TradeWith(offer.price, offer.order, Min(volume, offer.order.volume))
    requires InClosedForm(later, behind, hit, limit, volume - offer.order.volume, room - 1)
    ensures InClosedForm([trade] + later, [offer] + behind, hit, limit, volume, room)
  {
    var trades, offers := [trade] + later, [offer] + behind;
    assert offers[..0] == [];
    forall k | 0 <= k < |trades|
      ensures !Before(hit, limit, offers[k].price)
      ensures volume - M.Offered(offers[..k]) > TINY
      ensures trades[k] == M.TradeWith(offers[k].price, offers[k].order,
                             Min(volume - M.Offered(offers[..k]), offers[k].order.volume))
    {
      if k > 0 {
        FillOfCons(trade, later, offer, behind, hit, limit, volume, room, k - 1);
      }
    }
    M.OfferedOfPrefix(offer, behind, |later|);
  }

  /** One unfolding of the flat rule, as far as trades go. */
  lemma FirstTrade(offer: Offer, behind: seq<Offer>, hit: bool, limit: int, volume: real, room: int)
    requires volume > TINY && room > 0 && !Before(hit, limit, offer.price)
    ensures var fill := FillOf(offer.order, volume);
      Greedy([offer] + behind, hit, limit, volume, room).trades ==
      [M.TradeWith(offer.price, offer.order, fill)] +
        (if fill == offer.order.volume then Greedy(behind, hit, limit, volume - fill, room - 1).trades else [])
  {
    GreedyFirst(offer, behind, hit, limit, volume, room);
    assert Greedy(behind, hit, limit, 0.0, room - 1).trades == [];
  }

  lemma FillsFirst(offer: Offer, behind: seq<Offer>, hit: bool, limit: int, volume: real, room: int, later: seq<Trade>)
    requires volume > TINY && room > 0 && !Before(hit, limit, offer.price)
    requires var fill := FillOf(offer.order, volume);
      later == if fill == offer.order.volume then Greedy(behind, hit, limit, volume - fill, room - 1).trades else []
    requires Closed(later, behind, hit, limit, volume - offer.order.volume, room - 1)
    ensures Closed(Greedy([offer] + behind, hit, limit, volume, room).trades, [offer] + behind, hit, limit, volume, room)
  {
    assert Open(0, CLOSED);
    FirstTrade(offer, behind, hit, limit, volume, room);
    ClosedFormOfCons(M.TradeWith(offer.price, offer.order, FillOf(offer.order, volume)), later,
      offer, behind, hit, limit, volume, room);
  }

  lemma {:induction false} FillsAreClosed(offers: seq<Offer>, hit: bool, limit: int, volume: real, room: int)
    ensures Closed(Greedy(offers, hit, limit, volume, room).trades, offers, hit, limit, volume, room)
  {
    if Stops(offers, hit, limit, volume, room) {
      StoppedForm(offers, hit, limit, volume, room);
    } else {
      var offer, behind := offers[0], offers[1..];
      var left := volume - offer.order.volume;
      if FillOf(offer.order, volume) == offer.order.volume {
        FillsAreClosed(behind, hit, limit, left, room - 1);
        FillsFirst(offer, behind, hit, limit, volume, room, Greedy(behind, hit, limit, left, room - 1).trades);
      } else {
        StoppedForm(behind, hit, limit, left, room - 1);
        FillsFirst(offer, behind, hit, limit, volume, room, []);
      }
      assert offers == [offer] + behind;
    }
  }

  /** The closed form holds of every sweep. */
  lemma FillsInClosedForm(offers: seq<Offer>, hit: bool, limit: int, volume: real, room: int)
    ensures InClosedForm(Greedy(offers, hit, limit, volume, room).trades, offers, hit, limit, volume, room)
  {
    FillsAreClosed(offers, hit, limit, volume, room);
    assert Open(0, CLOSED);
  }

  function Residue(offers: seq<Offer>, g: Sweep): real {
    M.Offered(offers) - M.Offered(g.rest) - M.Traded(g.trades)
  }

  const BALANCED: int := 34

  /** What a sweep conserves. */
  ghost predicate Balanced(offers: seq<Offer>, hit: bool, limit: int, remain: real, room: int, g: Sweep) {
    forall x {:trigger Open(x, BALANCED)} :: Open(x, BALANCED) ==>
      && remain == M.Traded(g.trades) + g.remain
      && 0.0 <= Residue(offers, g) <= TINY
      && (g.remain > TINY && |g.trades| < room ==> g.rest == [] || Before(hit, limit, g.rest[0].price))
  }

  /** A maker that leaves a residue has exhausted the taker: nothing behind it is touched. */
  lemma BalancedAfterWhole(offer: Offer, behind: seq<Offer>, hit: bool, limit: int, remain: real, room: int)
    requires remain > TINY && room > 0 && !Before(hit, limit, offer.price)
    requires var fill := FillOf(offer.order, remain);
      && offer.order.volume - fill <= TINY
      && Balanced(behind, hit, limit, remain - fill, room - 1, Greedy(behind, hit, limit, remain - fill, room - 1))
    ensures Balanced([offer] + behind, hit, limit, remain, room, Greedy([offer] + behind, hit, limit, remain, room))
  {
    assert Open(0, BALANCED);
    var fill := FillOf(offer.order, remain);
    var next := Greedy(behind, hit, limit, remain - fill, room - 1);
    GreedyFirst(offer, behind, hit, limit, remain, room);
    M.TradedOfConcat([M.TradeWith(offer.price, offer.order, fill)], next.trades);
    M.OfferedOfCons(offer, behind);
    if fill != offer.order.volume {
      assert Residue(behind, next) == 0.0;
    }
  }

  lemma BalancedAfterPart(offer: Offer, behind: seq<Offer>, hit: bool, limit: int, remain: real, room: int)
    requires remain > TINY && room > 0 && !Before(hit, limit, offer.price)
    requires offer.order.volume - FillOf(offer.order, remain) > TINY
    ensures Balanced([offer] + behind, hit, limit, remain, room, Greedy([offer] + behind, hit, limit, remain, room))
  {
    var fill := FillOf(offer.order, remain);
    GreedyFirst(offer, behind, hit, limit, remain, room);
    M.OfferedOfCons(M.Offer(offer.price, M.Reduced(offer.order, fill)), behind);
    M.OfferedOfCons(offer, behind);
    var trade := M.TradeWith(offer.price, offer.order, fill);
    assert [trade][1..] == [] && M.Traded([trade]) == fill;
  }

  lemma {:induction false} GreedyBalances(offers: seq<Offer>, hit: bool, limit: int, remain: real, room: int)
    ensures Balanced(offers, hit, limit, remain, room, Greedy(offers, hit, limit, remain, room))
  {
    if !Stops(offers, hit, limit, remain, room) {
      var offer, behind := offers[0], offers[1..];
      assert offers == [offer] + behind;
      var fill := FillOf(offer.order, remain);
      if offer.order.volume - fill <= TINY {
        GreedyBalances(behind, hit, limit, remain - fill, room - 1);
        BalancedAfterWhole(offer, behind, hit, limit, remain, room);
      } else {
        BalancedAfterPart(offer, behind, hit, limit, remain, room);
      }
    }
  }

  /** Taker volume and book volume are conserved, up to one residue of at most TINY; and whenever both
      volume and room are left, the side is empty or its best offer is beyond the limit. */
  lemma GreedyConserves(offers: seq<Offer>, hit: bool, limit: int, remain: real, room: int)
    ensures var g := Greedy(offers, hit, limit, remain, room);
      && remain == M.Traded(g.trades) + g.remain
      && 0.0 <= Residue(offers, g) <= TINY
      && (g.remain > TINY && |g.trades| < room ==> g.rest == [] || Before(hit, limit, g.rest[0].price))
  {
    GreedyBalances(offers, hit, limit, remain, room);
    assert Open(0, BALANCED);
  }

  // ---------- invariants ----------

  /** Popping without renumbering: stored positions stay at or above the true ones. */
  lemma {:induction false} ErasedKeeps(s: Book, hit: bool, price: int, n: nat)
    requires Sound(s) && price in s.Side(hit) && n <= |s.Side(hit)[price]|
    ensures var queue := s.Side(hit)[price];
      Sound(M.AfterQueue(s, hit, price, queue[n..], Erased(s.index, queue[..n])))
    decreases n
  {
    var queue := s.Side(hit)[price];
    assert QueueSound(queue, price, hit, s.index);
    if n == 0 {
      assert queue[0..] == queue && queue[..0] == [];
      assert M.AfterQueue(s, hit, price, queue, s.index) == s;
    } else {
      var u := M.AfterQueue(s, hit, price, queue[1..], s.index - {queue[0].id});
      PopKeeps(s, hit, price);
      assert queue[..n][1..] == queue[1..][..n - 1];
      if |queue| > 1 {
        ErasedKeeps(u, hit, price, n - 1);
        M.AfterQueueTwice(s, hit, price, queue[1..], u.index, queue[1..][n - 1..], Erased(s.index, queue[..n]));
      }
      assert queue[1..][n - 1..] == queue[n..];
    }
  }

  lemma PopKeeps(s: Book, hit: bool, price: int)
    requires Sound(s) && price in s.Side(hit)
    ensures var queue := s.Side(hit)[price];
      queue != [] && Sound(M.AfterQueue(s, hit, price, queue[1..], s.index - {queue[0].id}))
  {
    var queue := s.Side(hit)[price];
    assert QueueSound(queue, price, hit, s.index);
    PopKeepsSide(s, hit, price, true);
    PopKeepsSide(s, hit, price, false);
  }

  lemma PopKeepsSide(s: Book, hit: bool, price: int, side: bool)
    requires Sound(s) && price in s.Side(hit) && s.Side(hit)[price] != []
    ensures var queue := s.Side(hit)[price];
      SideSound(M.AfterQueue(s, hit, price, queue[1..], s.index - {queue[0].id}), side)
  {
    var queue := s.Side(hit)[price];
    var t := M.AfterQueue(s, hit, price, queue[1..], s.index - {queue[0].id});
    assert QueueSound(queue, price, hit, s.index);
    forall p | p in t.Side(side) ensures QueueSound(t.Side(side)[p], p, side, t.index) {
      assert p in s.Side(side) && QueueSound(s.Side(side)[p], p, side, s.index);
    }
  }

  /** The queue left is a suffix of the queue, but for the volume of its first order. */
  ghost predicate SuffixBut(queue: Queue, n: nat, left: Queue) {
    n < |queue| && exists volume :: left == [queue[n].(volume := volume)] + queue[n..][1..]
  }

  lemma SuffixOfTail(order: Order, queue: Queue, n: nat, left: Queue)
    requires SuffixBut(queue, n, left)
    ensures SuffixBut([order] + queue, n + 1, left)
  {
    var volume :| left == [queue[n].(volume := volume)] + queue[n..][1..];
    var all := [order] + queue;
    assert all[n + 1..] == queue[n..];
    assert left == [all[n + 1].(volume := volume)] + all[n + 1..][1..];
  }

  lemma SuffixAtFront(queue: Queue, volume: real)
    requires queue != []
    ensures SuffixBut(queue, 0, [queue[0].(volume := volume)] + queue[1..])
  {
    assert queue[0..] == queue;
  }

  lemma {:induction false} LimitQueueShape(price: int, queue: Queue, remain: real, room: int)
    ensures var r := LimitQueue(price, queue, remain, room);
      r.queue != [] ==> SuffixBut(queue, r.popped, r.queue)
  {
    var r := LimitQueue(price, queue, remain, room);
    if queue == [] {
    } else if remain <= TINY || room <= 0 {
      SuffixAtFront(queue, queue[0].volume);
      assert r.queue == [queue[0].(volume := queue[0].volume)] + queue[1..];
    } else {
      var fill := FillOf(queue[0], remain);
      if queue[0].volume - fill <= TINY {
        LimitQueueShape(price, queue[1..], remain - fill, room - 1);
        if r.queue != [] {
          SuffixOfTail(queue[0], queue[1..], r.popped - 1, r.queue);
          assert queue == [queue[0]] + queue[1..];
        }
      } else {
        SuffixAtFront(queue, queue[0].volume - fill);
      }
    }
  }

  lemma LimitQueueKeeps(s: Book, hit: bool, price: int, remain: real, room: int)
    requires Sound(s) && price in s.Side(hit)
    ensures var queue := s.Side(hit)[price];
      var r := LimitQueue(price, queue, remain, room);
      Sound(M.AfterQueue(s, hit, price, r.queue, Erased(s.index, queue[..r.popped])))
  {
    var queue := s.Side(hit)[price];
    assert QueueSound(queue, price, hit, s.index);
    var r := LimitQueue(price, queue, remain, room);
    var index' := Erased(s.index, queue[..r.popped]);
    ErasedKeeps(s, hit, price, r.popped);
    if r.queue != [] {
      LimitQueueShape(price, queue, remain, room);
      var volume :| r.queue == [queue[r.popped].(volume := volume)] + queue[r.popped..][1..];
      var u := M.AfterQueue(s, hit, price, queue[r.popped..], index');
      M.VolumeChangeKeeps(u, hit, price, volume);
      M.AfterQueueTwice(s, hit, price, queue[r.popped..], index', r.queue, index');
    }
  }

  /** Limit matching keeps every resting order indexed at its price and side, at or above its position. */
  lemma {:induction false} LimitWalkKeeps(s: Book, hit: bool, limit: int, remain: real, room: int)
    requires Sound(s)
    ensures Sound(LimitWalk(s, hit, limit, remain, room).book)
    decreases |s.Side(hit)|
  {
    if remain > TINY && room > 0 && s.Side(hit) != map[] && !Before(hit, limit, Best(hit, s.Side(hit))) {
      var price := Best(hit, s.Side(hit));
      var queue := s.Side(hit)[price];
      var r := LimitQueue(price, queue, remain, room);
      LimitQueueKeeps(s, hit, price, remain, room);
      if r.queue == [] {
        M.FewerLevels(s.Side(hit), price);
        LimitWalkKeeps(M.AfterQueue(s, hit, price, r.queue, Erased(s.index, queue[..r.popped])),
          hit, limit, r.remain, room - |r.trades|);
      }
    }
  }

  lemma SoundHasNoEmptyLevel(s: Book, side: bool)
    requires Sound(s)
    ensures forall p | p in s.Side(side) :: s.Side(side)[p] != []
  {
    forall p | p in s.Side(side) ensures s.Side(side)[p] != [] {
      assert QueueSound(s.Side(side)[p], p, side, s.index);
    }
  }
}
