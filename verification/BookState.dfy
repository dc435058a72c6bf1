/** The state of the limit order book, its elementary updates, and the two agreements between
    the price levels and the id index: the exact one and the weaker one that survives the
    operations that do not reindex. */
module BookState {
  import opened KeyOrder

  // Ids as `make_order_id` hands them out while its epoch is below 2^15 (see OrderIds).
  type OrderId = x: int | 0 <= x < 0x8000_0000_0000_0000

  datatype Order = Order(id: OrderId, volume: real, isAgent: bool, timestamp: int, ttl: int)

  // The stored 32-bit position is kept unbounded here and reduced when it is read.
  datatype Entry = Entry(price: int, position: nat, isBuy: bool)

  type Queue = seq<Order>
  type Levels = map<int, Queue>
  type Index = map<int, Entry>

  datatype Book = Book(bids: Levels, asks: Levels, index: Index) {
    function Side(isBuy: bool): Levels {
      if isBuy then bids else asks
    }

    function WithSide(isBuy: bool, levels: Levels): Book {
      if isBuy then this.(bids := levels) else this.(asks := levels)
    }
  }

  const EMPTY := Book(map[], map[], map[])

  // ---------- price priority ----------

  /** `begin()->first` of the side's map. */
  function Best(isBuy: bool, levels: Levels): (p: int)
    requires levels != map[]
    ensures p in levels
    ensures forall q | q in levels && q != p :: Before(isBuy, p, q)
  {
    assert |levels.Keys| == |levels| != 0;
    First(isBuy, levels.Keys)
  }

  function QueueAt(levels: Levels, price: int): Queue {
    if price in levels then levels[price] else []
  }

  /** Stores a queue at a price; an empty queue takes its level away. */
  function Put(levels: Levels, price: int, queue: Queue): Levels {
    if queue == [] then levels - {price} else levels[price := queue]
  }

  // ---------- the index ----------

  /** `idx[id].position = j`, which default-constructs a missing entry. */
  function Repositioned(index: Index, id: int, j: nat): Index {
    index[id := if id in index then index[id].(position := j) else Entry(0, j, false)]
  }

  /** The renumbering loop over `queue[from..]`. */
  function Reindex(index: Index, queue: Queue, from: nat): Index
    decreases |queue| - from
  {
    if from >= |queue| then index
    else Reindex(Repositioned(index, queue[from].id, from), queue, from + 1)
  }

  ghost predicate Distinct(queue: Queue) {
    forall i, j | 0 <= i < j < |queue| :: queue[i].id != queue[j].id
  }

  lemma {:induction false} ReindexEffect(index: Index, queue: Queue, from: nat)
    requires Distinct(queue) && from <= |queue|
    requires forall j | from <= j < |queue| :: queue[j].id in index
    ensures var r := Reindex(index, queue, from);
      && r.Keys == index.Keys
      && (forall j | from <= j < |queue| :: r[queue[j].id] == index[queue[j].id].(position := j))
      && (forall id | id in index && (forall j | from <= j < |queue| :: queue[j].id != id) :: r[id] == index[id])
    decreases |queue| - from
  {
    if from < |queue| {
      var next := Repositioned(index, queue[from].id, from);
      ReindexEffect(next, queue, from + 1);
      assert forall j | from < j < |queue| :: next[queue[j].id] == index[queue[j].id];
    }
  }

  // ---------- agreement of levels and index ----------

  /** A queue whose orders are indexed at this price and side, never below their true position. */
  ghost predicate QueueSound(queue: Queue, price: int, isBuy: bool, index: Index) {
    && queue != []
    && Distinct(queue)
    && forall j | 0 <= j < |queue| ::
         && queue[j].id in index
         && index[queue[j].id].price == price
         && index[queue[j].id].isBuy == isBuy
         && index[queue[j].id].position >= j
  }

  ghost predicate SideSound(s: Book, isBuy: bool) {
    forall p | p in s.Side(isBuy) :: QueueSound(s.Side(isBuy)[p], p, isBuy, s.index)
  }

  ghost predicate Sound(s: Book) {
    SideSound(s, true) && SideSound(s, false)
  }

  ghost predicate QueueExact(queue: Queue, index: Index) {
    forall j | 0 <= j < |queue| :: queue[j].id in index && index[queue[j].id].position == j
  }

  ghost predicate SideExact(s: Book, isBuy: bool) {
    forall p | p in s.Side(isBuy) :: QueueExact(s.Side(isBuy)[p], s.index)
  }

  /** The order the entry stored under `id` points at is resting and has that id. */
  ghost predicate PointsAt(s: Book, id: int) {
    id in s.index &&
    var e := s.index[id];
    && e.price in s.Side(e.isBuy)
    && e.position < |s.Side(e.isBuy)[e.price]|
    && s.Side(e.isBuy)[e.price][e.position].id == id
  }

  /** The index holds exactly the resting ids, with their price, side and queue position. */
  ghost predicate Exact(s: Book) {
    && Sound(s)
    && SideExact(s, true)
    && SideExact(s, false)
    && forall id | id in s.index :: PointsAt(s, id)
  }

  ghost predicate RestingAt(s: Book, isBuy: bool, price: int, id: int) {
    price in s.Side(isBuy) && exists j :: 0 <= j < |s.Side(isBuy)[price]| && s.Side(isBuy)[price][j].id == id
  }

  ghost predicate Resting(s: Book, id: int) {
    exists isBuy, price :: RestingAt(s, isBuy, price, id)
  }

  lemma RestingInSound(s: Book, isBuy: bool, price: int, id: int)
    requires Sound(s) && RestingAt(s, isBuy, price, id)
    ensures id in s.index && s.index[id].price == price && s.index[id].isBuy == isBuy
  {
    var j :| 0 <= j < |s.Side(isBuy)[price]| && s.Side(isBuy)[price][j].id == id;
    assert QueueSound(s.Side(isBuy)[price], price, isBuy, s.index);
  }

  /** What the two agreements mean to a caller who only holds an id. */
  lemma IndexMeansResting(s: Book, id: int)
    ensures Sound(s) && Resting(s, id) ==> id in s.index
    ensures Exact(s) ==> (id in s.index <==> Resting(s, id))
    ensures Sound(s) && Resting(s, id) ==> RestingAt(s, s.index[id].isBuy, s.index[id].price, id)
  {
    if Sound(s) && Resting(s, id) {
      var isBuy, price :| RestingAt(s, isBuy, price, id);
      RestingInSound(s, isBuy, price, id);
    }
    if Exact(s) && id in s.index {
      assert PointsAt(s, id);
      assert RestingAt(s, s.index[id].isBuy, s.index[id].price, id);
    }
  }

  // ---------- adding ----------

  /** The POST_ONLY test: the new order would meet the best order of the other side. */
  predicate Crosses(s: Book, isBuy: bool, price: int) {
    var opposite := s.Side(!isBuy);
    opposite != map[] &&
    (if isBuy then price >= Best(!isBuy, opposite) else price <= Best(!isBuy, opposite))
  }

  function Add(s: Book, isBuy: bool, price: int, order: Order): Book {
    var queue := QueueAt(s.Side(isBuy), price) + [order];
    s.WithSide(isBuy, s.Side(isBuy)[price := queue])
    .(index := s.index[order.id := Entry(price, |queue| - 1, isBuy)])
  }

  lemma AddKeepsSide(s: Book, isBuy: bool, price: int, order: Order, side: bool)
    requires Sound(s) && !Resting(s, order.id)
    ensures SideSound(Add(s, isBuy, price, order), side)
  {
    var t := Add(s, isBuy, price, order);
    forall p | p in t.Side(side)
      ensures QueueSound(t.Side(side)[p], p, side, t.index)
    {
      if p in s.Side(side) {
        var was := s.Side(side)[p];
        assert QueueSound(was, p, side, s.index);
        assert forall j | 0 <= j < |was| :: was[j].id != order.id by {
          if j :| 0 <= j < |was| && was[j].id == order.id {
            assert RestingAt(s, side, p, order.id);
          }
        }
      }
    }
  }

  lemma AddKeeps(s: Book, isBuy: bool, price: int, order: Order)
    requires Sound(s) && !Resting(s, order.id)
    ensures Sound(Add(s, isBuy, price, order))
    ensures Exact(s) ==> Exact(Add(s, isBuy, price, order))
  {
    AddKeepsSide(s, isBuy, price, order, true);
    AddKeepsSide(s, isBuy, price, order, false);
    if Exact(s) {
      var t := Add(s, isBuy, price, order);
      IndexMeansResting(s, order.id);
      assert forall p | p in s.Side(true) :: QueueExact(s.Side(true)[p], s.index);
      assert forall p | p in s.Side(false) :: QueueExact(s.Side(false)[p], s.index);
      assert forall id | id in s.index :: PointsAt(s, id);
      forall id | id in t.index ensures PointsAt(t, id) {
        assert id == order.id || PointsAt(s, id);
      }
    }
  }

  // ---------- removing ----------

  /** Position of the first order with this id, or the length of the queue. */
  function FindId(queue: Queue, id: int): (i: nat)
    ensures i <= |queue|
    ensures forall j | 0 <= j < i :: queue[j].id != id
    ensures i < |queue| ==> queue[i].id == id
  {
    if queue == [] || queue[0].id == id then 0 else 1 + FindId(queue[1..], id)
  }

  function Drop(queue: Queue, i: nat): Queue
    requires i < |queue|
  {
    queue[..i] + queue[i + 1..]
  }

  /** Takes the order at position i of a level out, with its index entry, and renumbers what follows. */
  function RemoveAt(s: Book, isBuy: bool, price: int, i: nat): Book
    requires price in s.Side(isBuy) && i < |s.Side(isBuy)[price]|
  {
    var queue := s.Side(isBuy)[price];
    var rest := Drop(queue, i);
    s.WithSide(isBuy, Put(s.Side(isBuy), price, rest))
    .(index := Reindex(s.index - {queue[i].id}, rest, i))
  }

  /** `remove_order`. */
  function Remove(s: Book, isBuy: bool, price: int, id: int): Book {
    var side := s.Side(isBuy);
    if id < 0 || price !in side then s else
      var i := FindId(side[price], id);
      if i < |side[price]| then RemoveAt(s, isBuy, price, i)
      else s.WithSide(isBuy, Put(side, price, side[price]))
  }

  lemma DropKeepsDistinct(queue: Queue, i: nat)
    requires i < |queue| && Distinct(queue)
    ensures Distinct(Drop(queue, i))
    ensures forall j | 0 <= j < |Drop(queue, i)| :: Drop(queue, i)[j].id != queue[i].id
  {
    var rest := Drop(queue, i);
    assert forall j | 0 <= j < |rest| :: rest[j] == queue[if j < i then j else j + 1];
  }

  /** Everything an index entry can become when one order is taken out. */
  lemma RemoveAtIndex(s: Book, isBuy: bool, price: int, i: nat)
    requires Sound(s) && price in s.Side(isBuy) && i < |s.Side(isBuy)[price]|
    ensures var queue := s.Side(isBuy)[price];
      var rest := Drop(queue, i);
      var r := RemoveAt(s, isBuy, price, i).index;
      && r.Keys == s.index.Keys - {queue[i].id}
      && (forall j | i <= j < |rest| :: rest[j].id in s.index && r[rest[j].id] == s.index[rest[j].id].(position := j))
      && (forall id | id in r && (forall j | i <= j < |rest| :: rest[j].id != id) :: r[id] == s.index[id])
  {
    var queue := s.Side(isBuy)[price];
    var rest := Drop(queue, i);
    assert QueueSound(queue, price, isBuy, s.index);
    DropKeepsDistinct(queue, i);
    assert forall j | i <= j < |rest| :: rest[j] == queue[j + 1];
    ReindexEffect(s.index - {queue[i].id}, rest, i);
  }

  lemma RestOf(queue: Queue, i: nat)
    requires i < |queue|
    ensures |Drop(queue, i)| == |queue| - 1
    ensures forall j | 0 <= j < i :: Drop(queue, i)[j] == queue[j]
    ensures forall j | i <= j < |queue| - 1 :: Drop(queue, i)[j] == queue[j + 1]
  {
  }

  /** Levels other than the one an order is taken from keep their queues and their entries. */
  lemma RemoveAtElsewhere(s: Book, isBuy: bool, price: int, i: nat, side: bool, p: int)
    requires Sound(s) && price in s.Side(isBuy) && i < |s.Side(isBuy)[price]|
    requires p in s.Side(side) && (p != price || side != isBuy)
    ensures var t := RemoveAt(s, isBuy, price, i);
      && p in t.Side(side) && t.Side(side)[p] == s.Side(side)[p]
      && forall j | 0 <= j < |s.Side(side)[p]| ::
           s.Side(side)[p][j].id in t.index && t.index[s.Side(side)[p][j].id] == s.index[s.Side(side)[p][j].id]
  {
    RemoveAtIndex(s, isBuy, price, i);
    var here, there := s.Side(isBuy)[price], s.Side(side)[p];
    assert QueueSound(here, price, isBuy, s.index) && QueueSound(there, p, side, s.index);
    RestOf(here, i);
    forall j | 0 <= j < |there|
      ensures there[j].id != here[i].id
      ensures forall k | i <= k < |Drop(here, i)| :: Drop(here, i)[k].id != there[j].id
    {
      assert s.index[there[j].id].price == p && s.index[there[j].id].isBuy == side;
    }
  }

  /** In the level itself, orders before the removed one keep their entries, those after it are renumbered. */
  lemma RemoveAtHere(s: Book, isBuy: bool, price: int, i: nat)
    requires Sound(s) && price in s.Side(isBuy) && i < |s.Side(isBuy)[price]|
    ensures var t := RemoveAt(s, isBuy, price, i);
      var rest := Drop(s.Side(isBuy)[price], i);
      && (rest != [] ==> QueueSound(rest, price, isBuy, t.index))
      && (QueueExact(s.Side(isBuy)[price], s.index) ==> QueueExact(rest, t.index))
  {
    var t := RemoveAt(s, isBuy, price, i);
    var queue := s.Side(isBuy)[price];
    var rest := Drop(queue, i);
    RemoveAtIndex(s, isBuy, price, i);
    assert QueueSound(queue, price, isBuy, s.index);
    DropKeepsDistinct(queue, i);
    RestOf(queue, i);
    forall j | 0 <= j < |rest|
      ensures rest[j].id in t.index
      ensures t.index[rest[j].id] == if j < i then s.index[queue[j].id] else s.index[queue[j + 1].id].(position := j)
    {
      if j < i {
        assert forall k | i <= k < |rest| :: rest[k].id != rest[j].id;
      }
    }
  }

  lemma RemoveAtKeepsSide(s: Book, isBuy: bool, price: int, i: nat, side: bool)
    requires Sound(s) && price in s.Side(isBuy) && i < |s.Side(isBuy)[price]|
    ensures SideSound(RemoveAt(s, isBuy, price, i), side)
    ensures SideExact(s, true) && SideExact(s, false) ==> SideExact(RemoveAt(s, isBuy, price, i), side)
  {
    var t := RemoveAt(s, isBuy, price, i);
    forall p | p in t.Side(side)
      ensures QueueSound(t.Side(side)[p], p, side, t.index)
      ensures SideExact(s, true) && SideExact(s, false) ==> QueueExact(t.Side(side)[p], t.index)
    {
      if p != price || side != isBuy {
        assert QueueSound(s.Side(side)[p], p, side, s.index);
        RemoveAtElsewhere(s, isBuy, price, i, side, p);
      } else {
        RemoveAtHere(s, isBuy, price, i);
      }
    }
  }

  lemma RemoveAtPointsHere(s: Book, isBuy: bool, price: int, i: nat, id: int)
    requires Exact(s) && price in s.Side(isBuy) && i < |s.Side(isBuy)[price]|
    requires id in s.index && s.index[id].price == price && s.index[id].isBuy == isBuy && s.index[id].position != i
    ensures PointsAt(RemoveAt(s, isBuy, price, i), id)
  {
    var t := RemoveAt(s, isBuy, price, i);
    var rest := Drop(s.Side(isBuy)[price], i);
    RestOf(s.Side(isBuy)[price], i);
    RemoveAtHere(s, isBuy, price, i);
    assert PointsAt(s, id) && QueueExact(s.Side(isBuy)[price], s.index);
    var from := s.index[id].position;
    var at := if from < i then from else from - 1;
    assert rest[at].id == id && rest != [];
    assert t.Side(isBuy)[price] == rest;
    assert t.index[id].position == at;
  }

  lemma RemoveAtPointsElsewhere(s: Book, isBuy: bool, price: int, i: nat, id: int)
    requires Exact(s) && price in s.Side(isBuy) && i < |s.Side(isBuy)[price]|
    requires id in s.index && (s.index[id].price != price || s.index[id].isBuy != isBuy)
    ensures PointsAt(RemoveAt(s, isBuy, price, i), id)
  {
    assert PointsAt(s, id);
    RemoveAtElsewhere(s, isBuy, price, i, s.index[id].isBuy, s.index[id].price);
  }

  lemma RemoveAtKeeps(s: Book, isBuy: bool, price: int, i: nat)
    requires Sound(s) && price in s.Side(isBuy) && i < |s.Side(isBuy)[price]|
    ensures Sound(RemoveAt(s, isBuy, price, i))
    ensures Exact(s) ==> Exact(RemoveAt(s, isBuy, price, i))
  {
    RemoveAtKeepsSide(s, isBuy, price, i, true);
    RemoveAtKeepsSide(s, isBuy, price, i, false);
    if Exact(s) {
      RemoveAtIndex(s, isBuy, price, i);
      forall id | id in RemoveAt(s, isBuy, price, i).index
        ensures PointsAt(RemoveAt(s, isBuy, price, i), id)
      {
        assert PointsAt(s, id);
        if s.index[id].price == price && s.index[id].isBuy == isBuy {
          RemoveAtPointsHere(s, isBuy, price, i, id);
        } else {
          RemoveAtPointsElsewhere(s, isBuy, price, i, id);
        }
      }
    }
  }

  lemma RemoveKeeps(s: Book, isBuy: bool, price: int, id: int)
    requires Sound(s)
    ensures Sound(Remove(s, isBuy, price, id))
    ensures Exact(s) ==> Exact(Remove(s, isBuy, price, id))
  {
    var side := s.Side(isBuy);
    if id >= 0 && price in side {
      assert QueueSound(side[price], price, isBuy, s.index);
      var i := FindId(side[price], id);
      if i < |side[price]| {
        RemoveAtKeeps(s, isBuy, price, i);
      } else {
        assert Put(side, price, side[price]) == side;
        assert s.WithSide(isBuy, side) == s;
      }
    }
  }

  lemma RemoveKeepsBoth(s: Book, isBuy: bool, price: int, id: int)
    ensures Sound(s) ==> Sound(Remove(s, isBuy, price, id))
    ensures Exact(s) ==> Exact(Remove(s, isBuy, price, id))
  {
    if Sound(s) {
      RemoveKeeps(s, isBuy, price, id);
    }
  }

  // ---------- changes that keep every id in its place ----------

  ghost predicate SameIds(a: Levels, b: Levels) {
    && a.Keys == b.Keys
    && forall p | p in a :: |a[p]| == |b[p]| && forall j | 0 <= j < |a[p]| :: a[p][j].id == b[p][j].id
  }

  /** Volumes, time-to-live counters and the like play no part in either agreement. */
  lemma SameIdsKeep(s: Book, t: Book)
    requires SameIds(s.bids, t.bids) && SameIds(s.asks, t.asks) && s.index == t.index
    ensures Sound(s) ==> Sound(t)
    ensures Exact(s) ==> Exact(t)
  {
    if Sound(s) {
      SameIdsKeepSide(s, t, true);
      SameIdsKeepSide(s, t, false);
    }
    if Exact(s) {
      forall id | id in t.index ensures PointsAt(t, id) {
        assert PointsAt(s, id);
      }
    }
  }

  lemma SameIdsKeepSide(s: Book, t: Book, side: bool)
    requires SameIds(s.Side(side), t.Side(side)) && s.index == t.index
    requires SideSound(s, side)
    ensures SideSound(t, side)
    ensures SideExact(s, side) ==> SideExact(t, side)
  {
    forall p | p in t.Side(side)
      ensures QueueSound(t.Side(side)[p], p, side, t.index)
      ensures SideExact(s, side) ==> QueueExact(t.Side(side)[p], t.index)
    {
      assert p in s.Side(side);
      assert QueueSound(s.Side(side)[p], p, side, s.index);
    }
  }
}
