/** When the exact index survives the two operations that do not renumber: pruning and limit matching. */
module Exactness {
  import opened KeyOrder
  import opened BookState
  import L = Limit
  import M = Market
  import R = Removal

  // ---------- pruning ----------

  ghost predicate AllYounger(s: Book, now: int, maxAge: int) {
    forall side, p, j | p in s.Side(side) && 0 <= j < |s.Side(side)[p]| :: R.Younger(now, maxAge)(s.Side(side)[p][j])
  }

  lemma PruneNothing(s: Book, now: int, maxAge: int)
    requires Sound(s) && AllYounger(s, now, maxAge)
    ensures R.Prune(s, now, maxAge) == s
  {
    var t := R.Prune(s, now, maxAge);
    forall side ensures t.Side(side) == s.Side(side) {
      forall p | p in s.Side(side) ensures p in t.Side(side) && t.Side(side)[p] == s.Side(side)[p] {
        assert QueueSound(s.Side(side)[p], p, side, s.index);
        R.FilterAll(s.Side(side)[p], R.Younger(now, maxAge));
      }
    }
    assert t.Side(true) == s.Side(true) && t.Side(false) == s.Side(false);
  }

  lemma OldIsFilteredOut(queue: Queue, keep: Order -> bool, j: nat, k: nat)
    requires Distinct(queue) && j < |queue| && !keep(queue[j]) && k < |R.Filter(queue, keep)|
    ensures R.Filter(queue, keep)[k].id != queue[j].id
  {
    R.FilterMembers(queue, keep);
    var kept := R.Filter(queue, keep);
    assert kept[k] in kept && kept[k] in queue && keep(kept[k]);
    var i :| 0 <= i < |queue| && queue[i] == kept[k];
    assert i < j || j < i;
  }

  /** A pruned order keeps its index entry, which then points at nothing. */
  lemma PrunedIsStillIndexed(s: Book, now: int, maxAge: int, side: bool, p: int, j: nat)
    requires Exact(s) && p in s.Side(side) && j < |s.Side(side)[p]|
    requires !R.Younger(now, maxAge)(s.Side(side)[p][j])
    ensures !Exact(R.Prune(s, now, maxAge))
  {
    var t, queue := R.Prune(s, now, maxAge), s.Side(side)[p];
    var id := queue[j].id;
    assert QueueSound(queue, p, side, s.index);
    forall k: nat | k < |R.Filter(queue, R.Younger(now, maxAge))|
      ensures R.Filter(queue, R.Younger(now, maxAge))[k].id != id
    {
      OldIsFilteredOut(queue, R.Younger(now, maxAge), j, k);
    }
    assert id in t.index && !PointsAt(t, id);
  }

  /** Pruning keeps the exact index if and only if it prunes nothing. */
  lemma PruneKeepsExactly(s: Book, now: int, maxAge: int)
    requires Exact(s)
    ensures Exact(R.Prune(s, now, maxAge)) <==> AllYounger(s, now, maxAge)
  {
    if AllYounger(s, now, maxAge) {
      PruneNothing(s, now, maxAge);
    } else {
      var side, p, j :| p in s.Side(side) && 0 <= j < |s.Side(side)[p]| && !R.Younger(now, maxAge)(s.Side(side)[p][j]);
      PrunedIsStillIndexed(s, now, maxAge, side, p, j);
    }
  }

  // ---------- one level of limit matching ----------

  function IdsOf(queue: Queue): set<int> {
    set j | 0 <= j < |queue| :: queue[j].id
  }

  lemma {:induction false} ErasedIs(index: Index, popped: Queue)
    ensures L.Erased(index, popped) == index - IdsOf(popped)
    decreases |popped|
  {
    if popped != [] {
      ErasedIs(index - {popped[0].id}, popped[1..]);
      assert forall j | 0 < j < |popped| :: popped[j] == popped[1..][j - 1];
      assert IdsOf(popped) == {popped[0].id} + IdsOf(popped[1..]);
      assert index - {popped[0].id} - IdsOf(popped[1..]) == index - IdsOf(popped);
    }
  }

  /** The book without one level, and without its ids. */
  function WithoutLevel(s: Book, hit: bool, price: int): Book
    requires price in s.Side(hit)
  {
    M.AfterQueue(s, hit, price, [], s.index - IdsOf(s.Side(hit)[price]))
  }

  lemma OtherLevelsKept(s: Book, hit: bool, price: int, side: bool)
    requires Exact(s) && price in s.Side(hit)
    ensures SideSound(WithoutLevel(s, hit, price), side) && SideExact(WithoutLevel(s, hit, price), side)
  {
    var t, here := WithoutLevel(s, hit, price), s.Side(hit)[price];
    assert QueueSound(here, price, hit, s.index);
    forall p | p in t.Side(side)
      ensures QueueSound(t.Side(side)[p], p, side, t.index) && QueueExact(t.Side(side)[p], t.index)
    {
      var there := s.Side(side)[p];
      assert QueueSound(there, p, side, s.index) && QueueExact(there, s.index);
      forall j | 0 <= j < |there| ensures there[j].id !in IdsOf(here) {
        assert s.index[there[j].id].price == p && s.index[there[j].id].isBuy == side;
      }
    }
  }

  /** A level that is emptied with all its ids leaves the index exact. */
  lemma EmptiedKeeps(s: Book, hit: bool, price: int)
    requires Exact(s) && price in s.Side(hit)
    ensures Exact(WithoutLevel(s, hit, price))
  {
    var t, here := WithoutLevel(s, hit, price), s.Side(hit)[price];
    OtherLevelsKept(s, hit, price, true);
    OtherLevelsKept(s, hit, price, false);
    forall id | id in t.index ensures PointsAt(t, id) {
      assert PointsAt(s, id);
      assert forall j | 0 <= j < |here| :: here[j].id in IdsOf(here);
    }
  }

  /** A level that lost its front but not all orders has stored positions above the true ones. */
  lemma PartlyPoppedBreaks(s: Book, hit: bool, price: int, n: nat, queue: Queue)
    requires Exact(s) && price in s.Side(hit) && 0 < n < |s.Side(hit)[price]|
    requires queue != [] && queue[0].id == s.Side(hit)[price][n].id
    ensures !Exact(M.AfterQueue(s, hit, price, queue, L.Erased(s.index, s.Side(hit)[price][..n])))
  {
    var here := s.Side(hit)[price];
    var t := M.AfterQueue(s, hit, price, queue, L.Erased(s.index, here[..n]));
    assert QueueSound(here, price, hit, s.index) && QueueExact(here, s.index);
    ErasedIs(s.index, here[..n]);
    assert here[n].id !in IdsOf(here[..n]);
    assert t.index[queue[0].id].position == n;
    assert t.Side(hit)[price] == queue && !QueueExact(queue, t.index);
  }

  ghost function AfterLevel(s: Book, hit: bool, price: int, remain: real, room: int): Book
    requires price in s.Side(hit)
  {
    var queue := s.Side(hit)[price];
    var r := L.LimitQueue(price, queue, remain, room);
    M.AfterQueue(s, hit, price, r.queue, L.Erased(s.index, queue[..r.popped]))
  }

  lemma LevelKeepsExactly(s: Book, hit: bool, price: int, remain: real, room: int)
    requires Exact(s) && price in s.Side(hit)
    ensures var r := L.LimitQueue(price, s.Side(hit)[price], remain, room);
      Exact(AfterLevel(s, hit, price, remain, room)) <==> r.popped == 0 || r.queue == []
  {
    var queue := s.Side(hit)[price];
    var r := L.LimitQueue(price, queue, remain, room);
    assert QueueSound(queue, price, hit, s.index);
    if r.queue == [] {
      ErasedIs(s.index, queue);
      assert queue[..r.popped] == queue;
      EmptiedKeeps(s, hit, price);
    } else {
      L.LimitQueueShape(price, queue, remain, room);
      var volume :| r.queue == [queue[r.popped].(volume := volume)] + queue[r.popped..][1..];
      if r.popped == 0 {
        assert queue[0..] == queue && queue[..0] == [];
        M.VolumeChangeKeeps(s, hit, price, volume);
      } else {
        PartlyPoppedBreaks(s, hit, price, r.popped, r.queue);
      }
    }
  }

  // ---------- limit matching ----------

  /** How many offers a limit sweep uses up, computed before it. */
  function UsedUp(offers: seq<M.Offer>, hit: bool, limit: int, remain: real, room: int): (n: nat)
    ensures n <= |offers|
  {
    if L.Stops(offers, hit, limit, remain, room) then 0 else
      var fill := L.FillOf(offers[0].order, remain);
      if offers[0].order.volume - fill <= L.TINY
      then 1 + UsedUp(offers[1..], hit, limit, remain - fill, room - 1)
      else 0
  }

  lemma {:induction false} UsedUpIsGone(offers: seq<M.Offer>, hit: bool, limit: int, remain: real, room: int)
    ensures |L.Greedy(offers, hit, limit, remain, room).rest| == |offers| - UsedUp(offers, hit, limit, remain, room)
  {
    if !L.Stops(offers, hit, limit, remain, room) {
      var fill := L.FillOf(offers[0].order, remain);
      if offers[0].order.volume - fill <= L.TINY {
        UsedUpIsGone(offers[1..], hit, limit, remain - fill, room - 1);
      }
    }
  }

  /** The first n offers end where a price level ends, or there are none. */
  predicate EndsLevel(offers: seq<M.Offer>, n: nat) {
    n == 0 || n >= |offers| || offers[n - 1].price != offers[n].price
  }

  lemma UsedUpOfCons(offer: M.Offer, behind: seq<M.Offer>, hit: bool, limit: int, remain: real, room: int)
    requires remain > L.TINY && room > 0 && !Before(hit, limit, offer.price)
    ensures var fill := L.FillOf(offer.order, remain);
      UsedUp([offer] + behind, hit, limit, remain, room) ==
      if offer.order.volume - fill <= L.TINY then 1 + UsedUp(behind, hit, limit, remain - fill, room - 1) else 0
  {
    assert ([offer] + behind)[1..] == behind;
  }

  ghost predicate LevelUses(price: int, queue: Queue, tail: seq<M.Offer>, hit: bool, limit: int, remain: real, room: int) {
    var r := L.LimitQueue(price, queue, remain, room);
    UsedUp(M.Tag(price, queue) + tail, hit, limit, remain, room) ==
    if r.queue == [] then |queue| + UsedUp(tail, hit, limit, r.remain, room - |r.trades|) else r.popped
  }

  lemma UsesFirst(price: int, queue: Queue, tail: seq<M.Offer>, hit: bool, limit: int, remain: real, room: int)
    requires queue != [] && !Before(hit, limit, price) && remain > L.TINY && room > 0
    requires var fill := L.FillOf(queue[0], remain);
      queue[0].volume - fill <= L.TINY ==> LevelUses(price, queue[1..], tail, hit, limit, remain - fill, room - 1)
    ensures LevelUses(price, queue, tail, hit, limit, remain, room)
  {
    M.TagSplit(price, queue, tail);
    UsedUpOfCons(M.Offer(price, queue[0]), M.Tag(price, queue[1..]) + tail, hit, limit, remain, room);
  }

  lemma {:induction false} UsedUpOfLevel(price: int, queue: Queue, tail: seq<M.Offer>, hit: bool, limit: int, remain: real, room: int)
    requires !Before(hit, limit, price)
    ensures LevelUses(price, queue, tail, hit, limit, remain, room)
    decreases |queue|
  {
    if queue == [] {
      assert M.Tag(price, queue) + tail == tail;
    } else if remain > L.TINY && room > 0 {
      var fill := L.FillOf(queue[0], remain);
      if queue[0].volume - fill <= L.TINY {
        UsedUpOfLevel(price, queue[1..], tail, hit, limit, remain - fill, room - 1);
      }
      UsesFirst(price, queue, tail, hit, limit, remain, room);
    }
  }

  lemma EndsLevelOfLevel(price: int, queue: Queue, tail: seq<M.Offer>, n: nat)
    requires queue != [] && n <= |queue| + |tail| && (tail != [] ==> tail[0].price != price)
    ensures var offers := M.Tag(price, queue) + tail;
      EndsLevel(offers, n) <==> if n < |queue| then n == 0 else EndsLevel(tail, n - |queue|)
  {
    var offers := M.Tag(price, queue) + tail;
    assert forall i | 0 <= i < |offers| :: offers[i].price == if i < |queue| then price else tail[i - |queue|].price;
  }

  lemma BehindIsElsewhere(hit: bool, levels: Levels, price: int)
    ensures var tail := M.Flat(hit, levels - {price}); tail != [] ==> tail[0].price != price
  {
    var tail := M.Flat(hit, levels - {price});
    if tail != [] {
      assert tail[0] in tail;
      M.FlatMembers(hit, levels - {price}, tail[0]);
    }
  }

  ghost predicate UsesUpLevels(s: Book, hit: bool, limit: int, remain: real, room: int) {
    var offers := M.Flat(hit, s.Side(hit));
    EndsLevel(offers, UsedUp(offers, hit, limit, remain, room))
  }

  lemma EmptiedSide(s: Book, hit: bool, price: int, remain: real, room: int)
    requires price in s.Side(hit)
    ensures L.LimitQueue(price, s.Side(hit)[price], remain, room).queue == [] ==>
      AfterLevel(s, hit, price, remain, room).Side(hit) == s.Side(hit) - {price}
  {
  }

  lemma LevelStep(s: Book, hit: bool, limit: int, remain: real, room: int, price: int)
    requires s.Side(hit) != map[] && price == Best(hit, s.Side(hit)) && !Before(hit, limit, price)
    requires s.Side(hit)[price] != []
    ensures var levels := s.Side(hit);
      var r := L.LimitQueue(price, levels[price], remain, room);
      UsesUpLevels(s, hit, limit, remain, room) <==>
      if r.queue == [] then UsesUpLevels(AfterLevel(s, hit, price, remain, room), hit, limit, r.remain, room - |r.trades|)
      else r.popped == 0
  {
    var levels := s.Side(hit);
    EmptiedSide(s, hit, price, remain, room);
    var queue, tail := levels[price], M.Flat(hit, levels - {price});
    BehindIsElsewhere(hit, levels, price);
    UsedUpOfLevel(price, queue, tail, hit, limit, remain, room);
    var offers := M.Tag(price, queue) + tail;
    EndsLevelOfLevel(price, queue, tail, UsedUp(offers, hit, limit, remain, room));
    assert M.Flat(hit, levels) == offers;
  }

  /** One round of the outer loop decides whether a property of books survives, by a test that can be made
      before the round. */
  ghost predicate RoundDecides(keeps: Book -> bool, test: (Book, real, int) -> bool,
      s: Book, hit: bool, limit: int, remain: real, room: int)
  {
    var levels := s.Side(hit);
    if levels == map[] || remain <= L.TINY || room <= 0 || Before(hit, limit, Best(hit, levels)) then test(s, remain, room)
    else
      var price := Best(hit, levels);
      var r := L.LimitQueue(price, levels[price], remain, room);
      var t := AfterLevel(s, hit, price, remain, room);
      if r.queue == []
      then keeps(t) && (test(s, remain, room) <==> test(t, r.remain, room - |r.trades|))
      else test(s, remain, room) <==> keeps(t)
  }

  /** A round that goes on or ends, read off the condition. */
  lemma RoundGoesOn(keeps: Book -> bool, test: (Book, real, int) -> bool,
      s: Book, hit: bool, limit: int, remain: real, room: int) returns (t: Book, left: real, space: int, ends: bool)
    requires remain > L.TINY && room > 0 && s.Side(hit) != map[] && !Before(hit, limit, Best(hit, s.Side(hit)))
    requires RoundDecides(keeps, test, s, hit, limit, remain, room)
    ensures ends ==> L.LimitWalk(s, hit, limit, remain, room).book == t && (test(s, remain, room) <==> keeps(t))
    ensures !ends ==> keeps(t) && (test(s, remain, room) <==> test(t, left, space)) && |t.Side(hit)| < |s.Side(hit)|
    ensures !ends ==> L.LimitWalk(s, hit, limit, remain, room).book == L.LimitWalk(t, hit, limit, left, space).book
  {
    var price := Best(hit, s.Side(hit));
    var r := L.LimitQueue(price, s.Side(hit)[price], remain, room);
    t, left, space, ends := AfterLevel(s, hit, price, remain, room), r.remain, room - |r.trades|, r.queue != [];
    L.LimitWalkRound(s, hit, limit, remain, room, price);
    EmptiedSide(s, hit, price, remain, room);
    M.FewerLevels(s.Side(hit), price);
  }

  lemma {:induction false} WalkDecides(keeps: Book -> bool, test: (Book, real, int) -> bool,
      s: Book, hit: bool, limit: int, remain: real, room: int)
    requires keeps(s) && forall b, v, n | keeps(b) :: RoundDecides(keeps, test, b, hit, limit, v, n)
    ensures keeps(L.LimitWalk(s, hit, limit, remain, room).book) <==> test(s, remain, room)
    decreases |s.Side(hit)|
  {
    assert RoundDecides(keeps, test, s, hit, limit, remain, room);
    var levels := s.Side(hit);
    if levels != map[] && remain > L.TINY && room > 0 && !Before(hit, limit, Best(hit, levels)) {
      var t, left, space, ends := RoundGoesOn(keeps, test, s, hit, limit, remain, room);
      if !ends {
        WalkDecides(keeps, test, t, hit, limit, left, space);
      }
    }
  }

  /** A property that a level keeps exactly by losing no order or all of them is decided by whole levels. */
  lemma LevelsDecide(keeps: Book -> bool, s: Book, hit: bool, limit: int, remain: real, room: int)
    requires forall p | p in s.Side(hit) :: s.Side(hit)[p] != []
    requires s.Side(hit) != map[] ==>
      var p := Best(hit, s.Side(hit));
      var r := L.LimitQueue(p, s.Side(hit)[p], remain, room);
      keeps(AfterLevel(s, hit, p, remain, room)) <==> r.popped == 0 || r.queue == []
    ensures RoundDecides(keeps, (b: Book, v: real, n: int) => UsesUpLevels(b, hit, limit, v, n),
              s, hit, limit, remain, room)
  {
    var levels := s.Side(hit);
    if levels == map[] || remain <= L.TINY || room <= 0 || Before(hit, limit, Best(hit, levels)) {
      NothingUsedUp(s, hit, limit, remain, room);
    } else {
      LevelStep(s, hit, limit, remain, room, Best(hit, levels));
    }
  }

  lemma NothingUsedUp(s: Book, hit: bool, limit: int, remain: real, room: int)
    requires forall p | p in s.Side(hit) :: s.Side(hit)[p] != []
    requires s.Side(hit) == map[] || remain <= L.TINY || room <= 0 || Before(hit, limit, Best(hit, s.Side(hit)))
    ensures UsesUpLevels(s, hit, limit, remain, room)
  {
    if s.Side(hit) != map[] {
      L.FlatStarts(hit, s.Side(hit));
    }
  }

  lemma ExactnessDecides(s: Book, hit: bool, limit: int, remain: real, room: int)
    requires Exact(s)
    ensures RoundDecides((b: Book) => Exact(b), (b: Book, v: real, n: int) => UsesUpLevels(b, hit, limit, v, n),
              s, hit, limit, remain, room)
  {
    var keeps := (b: Book) => Exact(b);
    L.SoundHasNoEmptyLevel(s, hit);
    if s.Side(hit) != map[] {
      LevelKeepsExactly(s, hit, Best(hit, s.Side(hit)), remain, room);
    }
    LevelsDecide(keeps, s, hit, limit, remain, room);
  }

  /** From an exact index, limit matching leaves an exact index if and only if the offers it uses up are none,
      all, or whole price levels. */
  lemma LimitKeepsExactly(s: Book, hit: bool, limit: int, remain: real, room: int)
    requires Exact(s)
    ensures var offers := M.Flat(hit, s.Side(hit));
      Exact(L.LimitWalk(s, hit, limit, remain, room).book) <==>
      EndsLevel(offers, UsedUp(offers, hit, limit, remain, room))
  {
    var keeps := (b: Book) => Exact(b);
    var test := (b: Book, v: real, n: int) => UsesUpLevels(b, hit, limit, v, n);
    forall b, v, n | keeps(b) ensures RoundDecides(keeps, test, b, hit, limit, v, n) {
      ExactnessDecides(b, hit, limit, v, n);
    }
    WalkDecides(keeps, test, s, hit, limit, remain, room);
  }

  // ---------- instances ----------

  /** Two asks of one lot at a price, hit by a limit buy of one: the second keeps position 1 in the index and
      is first in the queue. */
  lemma LimitMatchingBreaksExactness()
    ensures var queue := [Order(1, 1.0, false, 0, 0), Order(2, 1.0, false, 0, 0)];
      var s := Book(map[], map[100 := queue], map[1 := Entry(100, 0, false), 2 := Entry(100, 1, false)]);
      Exact(s) && !Exact(L.LimitWalk(s, false, 100, 1.0, 1).book)
  {
    var queue := [Order(1, 1.0, false, 0, 0), Order(2, 1.0, false, 0, 0)];
    var s := Book(map[], map[100 := queue], map[1 := Entry(100, 0, false), 2 := Entry(100, 1, false)]);
    assert QueueSound(s.Side(false)[100], 100, false, s.index);
    assert PointsAt(s, 1) && PointsAt(s, 2);
    assert Exact(s);
    var offers := M.Flat(false, s.Side(false));
    assert Best(false, s.asks) == 100 && s.asks - {100} == map[];
    assert offers == M.Tag(100, queue) + M.Flat(false, map[]);
    assert offers == [M.Offer(100, queue[0]), M.Offer(100, queue[1])];
    assert UsedUp(offers[1..], false, 100, 0.0, 0) == 0;
    assert UsedUp(offers, false, 100, 1.0, 1) == 1;
    LimitKeepsExactly(s, false, 100, 1.0, 1);
  }

  /** One order that is too old: it is pruned and stays indexed. */
  lemma PruningBreaksExactness()
    ensures var s := Book(map[], map[100 := [Order(1, 1.0, false, 0, 0)]], map[1 := Entry(100, 0, false)]);
      Exact(s) && !Exact(R.Prune(s, 10, 5))
  {
    var s := Book(map[], map[100 := [Order(1, 1.0, false, 0, 0)]], map[1 := Entry(100, 0, false)]);
    assert QueueSound(s.Side(false)[100], 100, false, s.index);
    assert PointsAt(s, 1);
    assert Exact(s);
    assert !R.Younger(10, 5)(s.Side(false)[100][0]);
    PruneKeepsExactly(s, 10, 5);
  }
}
