/** Loop invariants of the two matchers: what has been done so far plus what the recursive walk would
    still do is what the walk does from the start. */
module Progress {
  import opened Sequences
  import opened KeyOrder
  import opened BookState
  import opened Folded
  import M = Market
  import L = Limit

  /** A book in the middle of the inner loop: the level is still there even if its queue is empty. */
  function MidLevel(s: Book, hit: bool, price: int, queue: Queue, index: Index): Book {
    s.WithSide(hit, s.Side(hit)[price := queue]).(index := index)
  }

  lemma MidLevelTwice(s: Book, hit: bool, price: int, queue: Queue, index: Index, queue': Queue, index': Index)
    ensures MidLevel(MidLevel(s, hit, price, queue, index), hit, price, queue', index') == MidLevel(s, hit, price, queue', index')
    ensures price in s.Side(hit) ==> MidLevel(s, hit, price, s.Side(hit)[price], s.index) == s
  {
    assert s.Side(hit)[price := queue][price := queue'] == s.Side(hit)[price := queue'];
  }

  /** Storing a queue and then erasing its level if it is empty. */
  lemma AfterLevel(s: Book, hit: bool, price: int, queue: Queue, index: Index)
    requires price in s.Side(hit)
    ensures var t := MidLevel(s, hit, price, queue, index);
      t.WithSide(hit, Put(t.Side(hit), price, queue)) == M.AfterQueue(s, hit, price, queue, index)
    ensures |Put(s.Side(hit), price, queue)| == if queue == [] then |s.Side(hit)| - 1 else |s.Side(hit)|
  {
    assert s.Side(hit)[price := queue] - {price} == s.Side(hit) - {price};
    assert (s.Side(hit) - {price}).Keys == s.Side(hit).Keys - {price};
    assert |(s.Side(hit) - {price}).Keys| == |s.Side(hit) - {price}|;
    assert s.Side(hit)[price := queue].Keys == s.Side(hit).Keys;
    assert |s.Side(hit)[price := queue].Keys| == |s.Side(hit)[price := queue]|;
    assert |s.Side(hit).Keys| == |s.Side(hit)|;
  }

  // ---------- market ----------

  /** The queue and the index after one meeting with the front order. */
  function QueueAfter(queue: Queue, m: M.Meeting): Queue
    requires queue != []
  {
    if m.gone then queue[1..] else [M.Reduced(queue[0], m.fill)] + queue[1..]
  }

  function IndexAfter(index: Index, queue: Queue, m: M.Meeting): Index
    requires queue != []
  {
    if m.gone then Reindex(index - {queue[0].id}, queue[1..], 0) else index
  }

  function Filled(m: M.Meeting): nat {
    if m.gone then |m.trades| else 0
  }

  ghost predicate LevelSoFar(price: int, queue0: Queue, index0: Index, remain0: real, takerIsAgent: bool,
      queue: Queue, index: Index, remain: real, trades: seq<M.Trade>, filled: nat)
  {
    var r0 := M.WalkQueue(price, queue0, remain0, takerIsAgent);
    var r := M.WalkQueue(price, queue, remain, takerIsAgent);
    && r0.queue == r.queue
    && r0.remain == r.remain
    && r0.trades == trades + r.trades
    && r0.filled == filled + r.filled
    && M.PopIndex(index0, queue0, r0.popped) == M.PopIndex(index, queue, r.popped)
  }

  lemma LevelStart(price: int, queue: Queue, index: Index, remain: real, takerIsAgent: bool)
    ensures LevelSoFar(price, queue, index, remain, takerIsAgent, queue, index, remain, [], 0)
  {
    var r := M.WalkQueue(price, queue, remain, takerIsAgent);
    assert [] + r.trades == r.trades;
  }

  lemma LevelStep(price: int, queue0: Queue, index0: Index, remain0: real, takerIsAgent: bool,
      queue: Queue, index: Index, remain: real, trades: seq<M.Trade>, filled: nat)
    requires LevelSoFar(price, queue0, index0, remain0, takerIsAgent, queue, index, remain, trades, filled)
    requires queue != [] && remain > M.EPS
    ensures var m := M.Meet(price, queue[0], remain, takerIsAgent);
      LevelSoFar(price, queue0, index0, remain0, takerIsAgent,
        QueueAfter(queue, m), IndexAfter(index, queue, m), remain - m.fill, trades + m.trades, filled + Filled(m))
  {
    var m := M.Meet(price, queue[0], remain, takerIsAgent);
    if m.gone {
      var next := M.WalkQueue(price, queue[1..], remain - m.fill, takerIsAgent);
      Associative(trades, m.trades, next.trades);
    } else {
      var next := M.WalkQueue(price, [M.Reduced(queue[0], m.fill)] + queue[1..], remain - m.fill, takerIsAgent);
      Associative(trades, m.trades, []);
      assert m.trades + [] == m.trades && (trades + m.trades) + [] == trades + m.trades;
    }
  }

  lemma LevelEnd(price: int, queue0: Queue, index0: Index, remain0: real, takerIsAgent: bool,
      queue: Queue, index: Index, remain: real, trades: seq<M.Trade>, filled: nat)
    requires LevelSoFar(price, queue0, index0, remain0, takerIsAgent, queue, index, remain, trades, filled)
    requires queue == [] || remain <= M.EPS
    ensures var r := M.WalkQueue(price, queue0, remain0, takerIsAgent);
      && r.queue == queue && r.remain == remain && r.trades == trades && r.filled == filled
      && M.PopIndex(index0, queue0, r.popped) == index
  {
    assert trades + [] == trades;
  }

  /** The whole invariant of the inner loop: s is the book when it began and t the book now. */
  ghost predicate LevelInvariant(s: Book, hit: bool, price: int, volume: real, takerIsAgent: bool,
      t: Book, remain: real, trades: seq<M.Trade>, filled: nat)
  {
    price in s.Side(hit) && price in t.Side(hit) &&
    forall x {:trigger Open(x, |trades|)} :: Open(x, |trades|) ==>
      && t == MidLevel(s, hit, price, t.Side(hit)[price], t.index)
      && LevelSoFar(price, s.Side(hit)[price], s.index, volume, takerIsAgent,
           t.Side(hit)[price], t.index, remain, trades, filled)
  }

  lemma LevelInvariantStart(s: Book, hit: bool, price: int, volume: real, takerIsAgent: bool)
    requires price in s.Side(hit)
    ensures LevelInvariant(s, hit, price, volume, takerIsAgent, s, volume, [], 0)
  {
    LevelStart(price, s.Side(hit)[price], s.index, volume, takerIsAgent);
    MidLevelTwice(s, hit, price, [], s.index, [], s.index);
  }

  lemma LevelInvariantStep(s: Book, hit: bool, price: int, volume: real, takerIsAgent: bool,
      t: Book, remain: real, trades: seq<M.Trade>, filled: nat)
    requires LevelInvariant(s, hit, price, volume, takerIsAgent, t, remain, trades, filled)
    requires t.Side(hit)[price] != [] && remain > M.EPS
    ensures var queue := t.Side(hit)[price];
      var m := M.Meet(price, queue[0], remain, takerIsAgent);
      var u := MidLevel(t, hit, price, QueueAfter(queue, m), IndexAfter(t.index, queue, m));
      && LevelInvariant(s, hit, price, volume, takerIsAgent, u, remain - m.fill, trades + m.trades, filled + Filled(m))
      && (|u.Side(hit)[price]| < |queue| || (|u.Side(hit)[price]| == |queue| && remain - m.fill <= M.EPS))
  {
    assert Open(0, |trades|);
    var queue := t.Side(hit)[price];
    var m := M.Meet(price, queue[0], remain, takerIsAgent);
    LevelStep(price, s.Side(hit)[price], s.index, volume, takerIsAgent, queue, t.index, remain, trades, filled);
    MidLevelTwice(s, hit, price, queue, t.index, QueueAfter(queue, m), IndexAfter(t.index, queue, m));
  }

  lemma LevelInvariantEnd(s: Book, hit: bool, price: int, volume: real, takerIsAgent: bool,
      t: Book, remain: real, trades: seq<M.Trade>, filled: nat)
    requires LevelInvariant(s, hit, price, volume, takerIsAgent, t, remain, trades, filled)
    requires t.Side(hit)[price] == [] || remain <= M.EPS
    ensures var queue := s.Side(hit)[price];
      var r := M.WalkQueue(price, queue, volume, takerIsAgent);
      && t == MidLevel(s, hit, price, r.queue, M.PopIndex(s.index, queue, r.popped))
      && r.remain == remain && r.trades == trades && r.filled == filled
  {
    assert Open(0, |trades|);
    LevelEnd(price, s.Side(hit)[price], s.index, volume, takerIsAgent, t.Side(hit)[price], t.index, remain, trades, filled);
  }

  ghost predicate SideSoFar(s0: Book, hit: bool, remain0: real, takerIsAgent: bool,
      s: Book, remain: real, trades: seq<M.Trade>, filled: nat)
  {
    forall x {:trigger Open(x, |trades|)} :: Open(x, |trades|) ==>
    var w0 := M.Walk(s0, hit, remain0, takerIsAgent);
    var w := M.Walk(s, hit, remain, takerIsAgent);
    && w0.book == w.book
    && w0.remain == w.remain
    && w0.trades == trades + w.trades
    && w0.filled == filled + w.filled
  }

  lemma SideStart(s: Book, hit: bool, remain: real, takerIsAgent: bool)
    ensures SideSoFar(s, hit, remain, takerIsAgent, s, remain, [], 0)
  {
    var w := M.Walk(s, hit, remain, takerIsAgent);
    assert [] + w.trades == w.trades;
  }

  lemma SideStep(s0: Book, hit: bool, remain0: real, takerIsAgent: bool,
      s: Book, remain: real, trades: seq<M.Trade>, filled: nat)
    requires SideSoFar(s0, hit, remain0, takerIsAgent, s, remain, trades, filled)
    requires s.Side(hit) != map[] && remain > M.EPS
    ensures var price := Best(hit, s.Side(hit));
      var queue := s.Side(hit)[price];
      var r := M.WalkQueue(price, queue, remain, takerIsAgent);
      SideSoFar(s0, hit, remain0, takerIsAgent,
        M.AfterQueue(s, hit, price, r.queue, M.PopIndex(s.index, queue, r.popped)),
        r.remain, trades + r.trades, filled + r.filled)
  {
    assert Open(0, |trades|);
    var price := Best(hit, s.Side(hit));
    var queue := s.Side(hit)[price];
    var r := M.WalkQueue(price, queue, remain, takerIsAgent);
    var t := M.AfterQueue(s, hit, price, r.queue, M.PopIndex(s.index, queue, r.popped));
    var next := M.Walk(t, hit, r.remain, takerIsAgent);
    Associative(trades, r.trades, next.trades);
    assert r.trades + [] == r.trades;
  }

  lemma SideEnd(s0: Book, hit: bool, remain0: real, takerIsAgent: bool,
      s: Book, remain: real, trades: seq<M.Trade>, filled: nat)
    requires SideSoFar(s0, hit, remain0, takerIsAgent, s, remain, trades, filled)
    requires s.Side(hit) == map[] || remain <= M.EPS
    ensures M.Walk(s0, hit, remain0, takerIsAgent) == M.Run(s, remain, trades, filled)
  {
    assert Open(0, |trades|);
    assert trades + [] == trades;
  }

  // ---------- limit ----------

  /** The queue and the index after a fill taken from the front order. */
  function QueueLeft(queue: Queue, fill: real): Queue
    requires queue != []
  {
    if queue[0].volume - fill <= L.TINY then queue[1..] else [M.Reduced(queue[0], fill)] + queue[1..]
  }

  function IndexLeft(index: Index, queue: Queue, fill: real): Index
    requires queue != []
  {
    if queue[0].volume - fill <= L.TINY then index - {queue[0].id} else index
  }

  ghost predicate LimitLevelSoFar(price: int, queue0: Queue, index0: Index, remain0: real, room0: int,
      queue: Queue, index: Index, remain: real, trades: seq<M.Trade>)
  {
    var r0 := L.LimitQueue(price, queue0, remain0, room0);
    var r := L.LimitQueue(price, queue, remain, room0 - |trades|);
    && r0.queue == r.queue
    && r0.remain == r.remain
    && r0.trades == trades + r.trades
    && L.Erased(index0, queue0[..r0.popped]) == L.Erased(index, queue[..r.popped])
  }

  lemma LimitLevelStart(price: int, queue: Queue, index: Index, remain: real, room: int)
    ensures LimitLevelSoFar(price, queue, index, remain, room, queue, index, remain, [])
  {
    var r := L.LimitQueue(price, queue, remain, room);
    assert [] + r.trades == r.trades;
  }

  ghost predicate LimitQueueGoesOn(price: int, queue: Queue, index: Index, remain: real, room: int, left: Queue, index': Index) {
    queue != [] &&
    var fill := L.FillOf(queue[0], remain);
    var r := L.LimitQueue(price, queue, remain, room);
    var next := L.LimitQueue(price, left, remain - fill, room - 1);
    && r.queue == next.queue
    && r.remain == next.remain
    && r.trades == [M.TradeWith(price, queue[0], fill)] + next.trades
    && L.Erased(index, queue[..r.popped]) == L.Erased(index', left[..next.popped])
  }

  lemma GoesOnAfterWhole(price: int, queue: Queue, index: Index, remain: real, room: int)
    requires queue != [] && remain > L.TINY && room > 0
    requires queue[0].volume - L.FillOf(queue[0], remain) <= L.TINY
    ensures LimitQueueGoesOn(price, queue, index, remain, room, queue[1..], index - {queue[0].id})
  {
    var r := L.LimitQueue(price, queue, remain, room);
    assert queue[..r.popped][1..] == queue[1..][..r.popped - 1];
    assert queue[..r.popped][0] == queue[0];
  }

  lemma GoesOnAfterPart(price: int, queue: Queue, index: Index, remain: real, room: int)
    requires queue != [] && remain > L.TINY && room > 0
    requires var fill := L.FillOf(queue[0], remain); queue[0].volume - fill > L.TINY
    ensures var fill := L.FillOf(queue[0], remain);
      LimitQueueGoesOn(price, queue, index, remain, room, [M.Reduced(queue[0], fill)] + queue[1..], index)
  {
    var left := [M.Reduced(queue[0], L.FillOf(queue[0], remain))] + queue[1..];
    assert queue[..0] == [] && left[..0] == [];
  }

  /** One unfolding of the inner limit loop. */
  lemma LimitQueueNext(price: int, queue: Queue, index: Index, remain: real, room: int)
    requires queue != [] && remain > L.TINY && room > 0
    ensures var fill := L.FillOf(queue[0], remain);
      LimitQueueGoesOn(price, queue, index, remain, room, QueueLeft(queue, fill), IndexLeft(index, queue, fill))
  {
    if queue[0].volume - L.FillOf(queue[0], remain) <= L.TINY {
      GoesOnAfterWhole(price, queue, index, remain, room);
    } else {
      GoesOnAfterPart(price, queue, index, remain, room);
    }
  }

  lemma LimitLevelStep(price: int, queue0: Queue, index0: Index, remain0: real, room0: int,
      queue: Queue, index: Index, remain: real, trades: seq<M.Trade>)
    requires LimitLevelSoFar(price, queue0, index0, remain0, room0, queue, index, remain, trades)
    requires queue != [] && remain > L.TINY && |trades| < room0
    ensures var fill := L.FillOf(queue[0], remain);
      var trade := M.TradeWith(price, queue[0], fill);
      LimitLevelSoFar(price, queue0, index0, remain0, room0,
        QueueLeft(queue, fill), IndexLeft(index, queue, fill), remain - fill, trades + [trade])
  {
    var fill := L.FillOf(queue[0], remain);
    LimitQueueNext(price, queue, index, remain, room0 - |trades|);
    Associative(trades, [M.TradeWith(price, queue[0], fill)],
      L.LimitQueue(price, QueueLeft(queue, fill), remain - fill, room0 - |trades| - 1).trades);
  }

  lemma LimitLevelEnd(price: int, queue0: Queue, index0: Index, remain0: real, room0: int,
      queue: Queue, index: Index, remain: real, trades: seq<M.Trade>)
    requires LimitLevelSoFar(price, queue0, index0, remain0, room0, queue, index, remain, trades)
    requires queue == [] || remain <= L.TINY || |trades| >= room0
    ensures var r := L.LimitQueue(price, queue0, remain0, room0);
      && r.queue == queue && r.remain == remain && r.trades == trades
      && L.Erased(index0, queue0[..r.popped]) == index
  {
    assert trades + [] == trades;
    assert queue[..0] == [];
  }

  const TAKEN: int := 50

  /** What one trade with the front order of a level makes of the book. */
  ghost predicate FrontTaken(t: Book, hit: bool, price: int, remain: real, next: Book) {
    price in t.Side(hit) && t.Side(hit)[price] != [] &&
    forall x {:trigger Open(x, TAKEN)} :: Open(x, TAKEN) ==>
      var queue := t.Side(hit)[price];
      var fill := L.FillOf(queue[0], remain);
      next == MidLevel(t, hit, price, QueueLeft(queue, fill), IndexLeft(t.index, queue, fill))
  }

  /** The whole invariant of the inner limit loop: s is the book when it began and t the book now. */
  ghost predicate LimitInvariant(s: Book, hit: bool, price: int, volume: real, room: int,
      t: Book, remain: real, trades: seq<M.Trade>)
  {
    price in s.Side(hit) && price in t.Side(hit) &&
    forall x {:trigger Open(x, |trades|)} :: Open(x, |trades|) ==>
      && t == MidLevel(s, hit, price, t.Side(hit)[price], t.index)
      && LimitLevelSoFar(price, s.Side(hit)[price], s.index, volume, room,
           t.Side(hit)[price], t.index, remain, trades)
  }

  lemma LimitInvariantStart(s: Book, hit: bool, price: int, volume: real, room: int)
    requires price in s.Side(hit)
    ensures LimitInvariant(s, hit, price, volume, room, s, volume, [])
  {
    LimitLevelStart(price, s.Side(hit)[price], s.index, volume, room);
    MidLevelTwice(s, hit, price, [], s.index, [], s.index);
  }

  lemma LimitInvariantStep(s: Book, hit: bool, price: int, volume: real, room: int,
      t: Book, remain: real, trades: seq<M.Trade>, next: Book)
    requires LimitInvariant(s, hit, price, volume, room, t, remain, trades)
    requires remain > L.TINY && |trades| < room && FrontTaken(t, hit, price, remain, next)
    ensures var maker := t.Side(hit)[price][0];
      var fill := L.FillOf(maker, remain);
      LimitInvariant(s, hit, price, volume, room, next, remain - fill, trades + [M.TradeWith(price, maker, fill)])
  {
    assert Open(0, |trades|) && Open(0, TAKEN);
    var queue := t.Side(hit)[price];
    var fill := L.FillOf(queue[0], remain);
    LimitLevelStep(price, s.Side(hit)[price], s.index, volume, room, queue, t.index, remain, trades);
    MidLevelTwice(s, hit, price, queue, t.index, QueueLeft(queue, fill), IndexLeft(t.index, queue, fill));
  }

  lemma LimitInvariantEnd(s: Book, hit: bool, price: int, volume: real, room: int,
      t: Book, remain: real, trades: seq<M.Trade>)
    requires LimitInvariant(s, hit, price, volume, room, t, remain, trades)
    requires t.Side(hit)[price] == [] || remain <= L.TINY || |trades| >= room
    ensures var queue := s.Side(hit)[price];
      var r := L.LimitQueue(price, queue, volume, room);
      && t == MidLevel(s, hit, price, r.queue, L.Erased(s.index, queue[..r.popped]))
      && r.remain == remain && r.trades == trades
  {
    assert Open(0, |trades|);
    LimitLevelEnd(price, s.Side(hit)[price], s.index, volume, room, t.Side(hit)[price], t.index, remain, trades);
  }

  ghost predicate LimitSideSoFar(s0: Book, hit: bool, limit: int, remain0: real, room0: int,
      s: Book, remain: real, trades: seq<M.Trade>)
  {
    forall x {:trigger Open(x, |trades|)} :: Open(x, |trades|) ==>
    var w0 := L.LimitWalk(s0, hit, limit, remain0, room0);
    var w := L.LimitWalk(s, hit, limit, remain, room0 - |trades|);
    && w0.book == w.book
    && w0.remain == w.remain
    && w0.trades == trades + w.trades
  }

  lemma LimitSideStart(s: Book, hit: bool, limit: int, remain: real, room: int)
    ensures LimitSideSoFar(s, hit, limit, remain, room, s, remain, [])
  {
    var w := L.LimitWalk(s, hit, limit, remain, room);
    assert [] + w.trades == w.trades;
  }

  lemma LimitSideJoin(s0: Book, hit: bool, limit: int, remain0: real, room0: int,
      s: Book, remain: real, trades: seq<M.Trade>, t: Book, left: real, more: seq<M.Trade>)
    requires LimitSideSoFar(s0, hit, limit, remain0, room0, s, remain, trades)
    requires var next := L.LimitWalk(t, hit, limit, left, room0 - |trades| - |more|);
      L.LimitWalk(s, hit, limit, remain, room0 - |trades|) == next.(trades := more + next.trades)
    ensures LimitSideSoFar(s0, hit, limit, remain0, room0, t, left, trades + more)
  {
    assert Open(0, |trades|);
    assert room0 - |trades + more| == room0 - |trades| - |more|;
    Associative(trades, more, L.LimitWalk(t, hit, limit, left, room0 - |trades| - |more|).trades);
  }

  /** A walk that is cut off inside a level has nothing more to do. */
  lemma LimitRoundJoins(s: Book, hit: bool, limit: int, remain: real, room: int)
    requires s.Side(hit) != map[] && remain > L.TINY && room > 0 && !Before(hit, limit, Best(hit, s.Side(hit)))
    ensures var price := Best(hit, s.Side(hit));
      var queue := s.Side(hit)[price];
      var r := L.LimitQueue(price, queue, remain, room);
      var t := M.AfterQueue(s, hit, price, r.queue, L.Erased(s.index, queue[..r.popped]));
      var next := L.LimitWalk(t, hit, limit, r.remain, room - |r.trades|);
      L.LimitWalk(s, hit, limit, remain, room) == next.(trades := r.trades + next.trades)
  {
    var price := Best(hit, s.Side(hit));
    var queue := s.Side(hit)[price];
    var r := L.LimitQueue(price, queue, remain, room);
    L.LimitWalkRound(s, hit, limit, remain, room, price);
    if r.queue != [] {
      var t := M.AfterQueue(s, hit, price, r.queue, L.Erased(s.index, queue[..r.popped]));
      assert L.LimitWalk(t, hit, limit, r.remain, room - |r.trades|) == L.Run(t, r.remain, []);
      assert r.trades + [] == r.trades;
    }
  }

  lemma LimitSideStep(s0: Book, hit: bool, limit: int, remain0: real, room0: int,
      s: Book, remain: real, trades: seq<M.Trade>)
    requires LimitSideSoFar(s0, hit, limit, remain0, room0, s, remain, trades)
    requires s.Side(hit) != map[] && remain > L.TINY && |trades| < room0
    requires !Before(hit, limit, Best(hit, s.Side(hit)))
    ensures var price := Best(hit, s.Side(hit));
      var queue := s.Side(hit)[price];
      var r := L.LimitQueue(price, queue, remain, room0 - |trades|);
      LimitSideSoFar(s0, hit, limit, remain0, room0,
        M.AfterQueue(s, hit, price, r.queue, L.Erased(s.index, queue[..r.popped])), r.remain, trades + r.trades)
  {
    var price := Best(hit, s.Side(hit));
    var queue := s.Side(hit)[price];
    var r := L.LimitQueue(price, queue, remain, room0 - |trades|);
    var t := M.AfterQueue(s, hit, price, r.queue, L.Erased(s.index, queue[..r.popped]));
    LimitRoundJoins(s, hit, limit, remain, room0 - |trades|);
    LimitSideJoin(s0, hit, limit, remain0, room0, s, remain, trades, t, r.remain, r.trades);
  }

  /** The same with what the outer loop's termination needs. */
  lemma LimitOuterStep(s0: Book, hit: bool, limit: int, remain0: real, room0: int,
      s: Book, remain: real, trades: seq<M.Trade>)
    requires LimitSideSoFar(s0, hit, limit, remain0, room0, s, remain, trades)
    requires s.Side(hit) != map[] && remain > L.TINY && |trades| < room0
    requires !Before(hit, limit, Best(hit, s.Side(hit)))
    ensures var r := LimitBest(s, hit, remain, room0 - |trades|);
      var t := AfterBest(s, hit, r);
      && LimitSideSoFar(s0, hit, limit, remain0, room0, t, r.remain, trades + r.trades)
      && |t.Side(hit)| == (if r.queue == [] then |s.Side(hit)| - 1 else |s.Side(hit)|)
      && (r.queue != [] ==> r.remain <= L.TINY || |trades + r.trades| >= room0)
  {
    LimitSideStep(s0, hit, limit, remain0, room0, s, remain, trades);
    var price := Best(hit, s.Side(hit));
    var queue := s.Side(hit)[price];
    var r := L.LimitQueue(price, queue, remain, room0 - |trades|);
    AfterLevel(s, hit, price, r.queue, L.Erased(s.index, queue[..r.popped]));
  }

  /** What the limit loop does with the best level, and the book it leaves. */
  ghost function LimitBest(s: Book, hit: bool, remain: real, room: int): L.QueueRun
    requires s.Side(hit) != map[]
  {
    var price := Best(hit, s.Side(hit));
    L.LimitQueue(price, s.Side(hit)[price], remain, room)
  }

  ghost function AfterBest(s: Book, hit: bool, r: L.QueueRun): Book
    requires s.Side(hit) != map[] && r.popped <= |s.Side(hit)[Best(hit, s.Side(hit))]|
  {
    var price := Best(hit, s.Side(hit));
    M.AfterQueue(s, hit, price, r.queue, L.Erased(s.index, s.Side(hit)[price][..r.popped]))
  }

  /** The inner limit loop on the best level, followed by the erasure of an emptied level, is that. */
  lemma LimitBestEnds(s: Book, hit: bool, volume: real, room: int, t: Book, remain: real, trades: seq<M.Trade>)
    requires s.Side(hit) != map[]
    requires LimitInvariant(s, hit, Best(hit, s.Side(hit)), volume, room, t, remain, trades)
    requires t.Side(hit)[Best(hit, s.Side(hit))] == [] || remain <= L.TINY || |trades| >= room
    ensures var price := Best(hit, s.Side(hit));
      var r := LimitBest(s, hit, volume, room);
      && t.WithSide(hit, Put(t.Side(hit), price, t.Side(hit)[price])) == AfterBest(s, hit, r)
      && remain == r.remain && trades == r.trades
  {
    var price := Best(hit, s.Side(hit));
    var queue := s.Side(hit)[price];
    var r := L.LimitQueue(price, queue, volume, room);
    LimitInvariantEnd(s, hit, price, volume, room, t, remain, trades);
    AfterLevel(s, hit, price, r.queue, L.Erased(s.index, queue[..r.popped]));
  }

  lemma LimitSideEnd(s0: Book, hit: bool, limit: int, remain0: real, room0: int,
      s: Book, remain: real, trades: seq<M.Trade>)
    requires LimitSideSoFar(s0, hit, limit, remain0, room0, s, remain, trades)
    requires s.Side(hit) == map[] || remain <= L.TINY || |trades| >= room0 || Before(hit, limit, Best(hit, s.Side(hit)))
    ensures L.LimitWalk(s0, hit, limit, remain0, room0) == L.Run(s, remain, trades)
  {
    assert Open(0, |trades|);
    assert trades + [] == trades;
  }
}
