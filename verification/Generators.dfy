/** The microstructure generator's pools of order ids beside the real book: for any draws, and whatever
    else matches, cancels or prunes in between, every generator order that rests is tracked in its place. */
module Generators {
  import opened KeyOrder
  import opened BookState
  import B = BookState
  import T = Ttl
  import M = Market
  import Report
  import BlackSwan
  import Runs
  import OrderBooks

  datatype SideBook = SideBook(ids: set<int>, byPrice: map<int, seq<int>>)

  datatype Pools = Pools(buySide: SideBook, sellSide: SideBook, nextId: int) {
    function Side(isBuy: bool): SideBook {
      if isBuy then buySide else sellSide
    }

    function WithSide(isBuy: bool, side: SideBook): Pools {
      if isBuy then this.(buySide := side) else this.(sellSide := side)
    }
  }

  const NO_ORDERS := SideBook({}, map[])

  // ---------- one side of the pools ----------

  predicate ListedAt(sb: SideBook, price: int, id: int) {
    price in sb.byPrice && id in sb.byPrice[price]
  }

  ghost predicate NoDuplicates(list: seq<int>) {
    forall i, j | 0 <= i < j < |list| :: list[i] != list[j]
  }

  /** `ids` is the disjoint union of the price lists, none of which is empty. */
  ghost predicate Partitioned(sb: SideBook) {
    && (forall p | p in sb.byPrice :: sb.byPrice[p] != [] && NoDuplicates(sb.byPrice[p]))
    && (forall id :: id in sb.ids <==> exists p :: ListedAt(sb, p, id))
    && (forall p, q, id | ListedAt(sb, p, id) && ListedAt(sb, q, id) :: p == q)
  }

  function Track(sb: SideBook, id: int, price: int): SideBook {
    var list := if price in sb.byPrice then sb.byPrice[price] else [];
    SideBook(sb.ids + {id}, sb.byPrice[price := list + [id]])
  }

  /** The first position of an id in a list, or its length. */
  function Find(list: seq<int>, id: int): (i: nat)
    ensures i <= |list|
    ensures forall j | 0 <= j < i :: list[j] != id
    ensures i < |list| ==> list[i] == id
  {
    if list == [] || list[0] == id then 0 else 1 + Find(list[1..], id)
  }

  /** Overwrites the id with the last one and drops the last place. */
  function SwapOut(list: seq<int>, id: int): seq<int> {
    var i := Find(list, id);
    if i == |list| then list else list[i := list[|list| - 1]][..|list| - 1]
  }

  function Untrack(sb: SideBook, id: int, price: int): SideBook {
    SideBook(sb.ids - {id},
      if price !in sb.byPrice then sb.byPrice
      else if SwapOut(sb.byPrice[price], id) == [] then sb.byPrice - {price}
      else sb.byPrice[price := SwapOut(sb.byPrice[price], id)])
  }

  lemma SwapOutMembers(list: seq<int>, id: int)
    requires NoDuplicates(list)
    ensures NoDuplicates(SwapOut(list, id))
    ensures forall k :: k in SwapOut(list, id) <==> k in list && k != id
  {
    var i, rest := Find(list, id), SwapOut(list, id);
    if i < |list| {
      assert forall j | 0 <= j < |rest| :: rest[j] == if j == i then list[|list| - 1] else list[j];
      forall k | k in list && k != id ensures k in rest {
        var j :| 0 <= j < |list| && list[j] == k;
        assert rest[if j == |list| - 1 then i else j] == k;
      }
    }
  }

  lemma TrackKeeps(sb: SideBook, id: int, price: int)
    requires Partitioned(sb) && id !in sb.ids
    ensures Partitioned(Track(sb, id, price))
    ensures forall p, k :: ListedAt(Track(sb, id, price), p, k) <==> ListedAt(sb, p, k) || (p == price && k == id)
  {
    var t := Track(sb, id, price);
    assert forall p :: !ListedAt(sb, p, id);
    forall p, k ensures ListedAt(t, p, k) <==> ListedAt(sb, p, k) || (p == price && k == id) {
    }
    assert price in sb.byPrice ==> !ListedAt(sb, price, id);
    forall k ensures k in t.ids <==> exists p :: ListedAt(t, p, k) {
      if k in sb.ids {
        var p :| ListedAt(sb, p, k);
        assert ListedAt(t, p, k);
      }
      assert k == id ==> ListedAt(t, price, k);
    }
  }

  lemma UntrackKeeps(sb: SideBook, id: int, price: int)
    requires Partitioned(sb) && ListedAt(sb, price, id)
    ensures Partitioned(Untrack(sb, id, price))
    ensures forall p, k :: ListedAt(Untrack(sb, id, price), p, k) <==> ListedAt(sb, p, k) && k != id
  {
    var t := Untrack(sb, id, price);
    SwapOutMembers(sb.byPrice[price], id);
    forall p, k ensures ListedAt(t, p, k) <==> ListedAt(sb, p, k) && k != id {
      assert p != price && ListedAt(sb, p, k) ==> k != id;
      assert SwapOut(sb.byPrice[price], id) == [] && p == price ==> k !in SwapOut(sb.byPrice[price], id);
    }
    forall k ensures k in t.ids <==> exists p :: ListedAt(t, p, k) {
      if k in t.ids {
        var p :| ListedAt(sb, p, k);
        assert ListedAt(t, p, k);
      }
    }
  }

  // ---------- the generator beside the book ----------

  datatype World = World(book: Book, pools: Pools)

  /** What can happen to the two: the generator's own three events, and any operation on the book by others.
      A cancel names the price and the place in its list that were drawn. */
  datatype Event =
    | EmitLimit(isBuy: bool, price: int, size: real, timestamp: int)
    | EmitMarket(isBuy: bool, size: real)
    | EmitCancel(isBuy: bool, price: int, place: nat)
    | Outside(op: Runs.Op)

  /** The ids from 1 up to this bound are the generator's; orders of others carry other ids. */
  predicate IsGenerators(bound: int, id: int) {
    1 <= id < bound
  }

  ghost predicate Legal(bound: int, w: World, e: Event) {
    match e
    case EmitLimit(_, _, _, _) => w.pools.nextId < bound <= 0x8000_0000_0000_0000
    case EmitMarket(_, _) => true
    case EmitCancel(isBuy, price, place) =>
      price in w.pools.Side(isBuy).byPrice && place < |w.pools.Side(isBuy).byPrice[price]|
    case Outside(op) => Runs.Legal(w.book, op) && (op.Add? ==> !IsGenerators(bound, op.order.id))
  }

  /** What an event does to the book: the generator's orders and its takers are the agent's. */
  function OpOf(pools: Pools, e: Event): Runs.Op
    requires e.EmitLimit? ==> 0 <= pools.nextId < 0x8000_0000_0000_0000
    requires e.EmitCancel? ==> e.price in pools.Side(e.isBuy).byPrice && e.place < |pools.Side(e.isBuy).byPrice[e.price]|
  {
    match e
    case EmitLimit(isBuy, price, size, timestamp) =>
      Runs.Add(isBuy, price, Order(pools.nextId, size, true, timestamp, 0), false)
    case EmitMarket(isBuy, size) => Runs.Market(isBuy, size, true)
    case EmitCancel(isBuy, price, place) => Runs.Remove(isBuy, price, pools.Side(isBuy).byPrice[price][place])
    case Outside(op) => op
  }

  /** A new order is tracked under the next id. */
  function Registered(pools: Pools, isBuy: bool, price: int): Pools {
    pools.WithSide(isBuy, Track(pools.Side(isBuy), pools.nextId, price)).(nextId := pools.nextId + 1)
  }

  function PoolsAfter(pools: Pools, e: Event): Pools
    requires e.EmitCancel? ==> e.price in pools.Side(e.isBuy).byPrice && e.place < |pools.Side(e.isBuy).byPrice[e.price]|
  {
    match e
    case EmitLimit(isBuy, price, _, _) => Registered(pools, isBuy, price)
    case EmitCancel(isBuy, price, place) =>
      pools.WithSide(isBuy, Untrack(pools.Side(isBuy), pools.Side(isBuy).byPrice[price][place], price))
    case _ => pools
  }

  function Apply(w: World, e: Event): World
    requires e.EmitLimit? ==> 0 <= w.pools.nextId < 0x8000_0000_0000_0000
    requires e.EmitCancel? ==> e.price in w.pools.Side(e.isBuy).byPrice && e.place < |w.pools.Side(e.isBuy).byPrice[e.price]|
  {
    World(Runs.Apply(w.book, OpOf(w.pools, e)), PoolsAfter(w.pools, e))
  }

  // ---------- the invariant ----------

  ghost predicate Tidy(pools: Pools) {
    && pools.nextId >= 1
    && Partitioned(pools.buySide) && Partitioned(pools.sellSide)
    && (forall id | id in pools.buySide.ids :: 1 <= id < pools.nextId && id !in pools.sellSide.ids)
    && (forall id | id in pools.sellSide.ids :: 1 <= id < pools.nextId)
  }

  /** Every generator order resting in the book is tracked at its own side and price. */
  ghost predicate RestingIsTracked(bound: int, w: World) {
    forall isBuy, price, id | IsGenerators(bound, id) && RestingAt(w.book, isBuy, price, id) ::
      ListedAt(w.pools.Side(isBuy), price, id)
  }

  ghost predicate Consistent(bound: int, w: World) {
    Sound(w.book) && Tidy(w.pools) && RestingIsTracked(bound, w)
  }

  // ---------- operations never move an order ----------

  /** An order resting after an operation rested at the same place before, unless the operation added it there. */
  lemma RestedBefore(s: Book, op: Runs.Op, isBuy: bool, price: int, id: int)
    requires Sound(s) && Runs.Legal(s, op) && RestingAt(Runs.Apply(s, op), isBuy, price, id)
    ensures RestingAt(s, isBuy, price, id) || (op.Add? && op.order.id == id && op.isBuy == isBuy && op.price == price)
  {
    var t := Runs.Apply(s, op);
    var j :| 0 <= j < |t.Side(isBuy)[price]| && t.Side(isBuy)[price][j].id == id;
    if op.Add? {
      var queue := QueueAt(s.Side(isBuy), price);
      assert j < |queue| ==> s.Side(isBuy)[price][j].id == id;
    } else if op.SetTtl? {
      assert s.Side(isBuy)[price][j].id == id;
    } else if op.Decay? {
      Runs.DecayBack(s, isBuy, price, j);
      var before :| T.HasTtl(s, isBuy, price, id, before);
    } else {
      Runs.StepShrinks(s, op);
      assert Runs.AllHeld(s.Side(isBuy)[price], t.Side(isBuy)[price]);
      assert Runs.Holds(s.Side(isBuy)[price], t.Side(isBuy)[price][j]);
    }
  }

  /** A removed order rests nowhere, if it could only have rested at the place named. */
  lemma RemovedIsGone(s: Book, isBuy: bool, price: int, id: int)
    requires Sound(s) && id >= 0
    requires forall side, p | RestingAt(s, side, p, id) :: side == isBuy && p == price
    ensures !Resting(B.Remove(s, isBuy, price, id), id)
  {
    var t := B.Remove(s, isBuy, price, id);
    RemoveKeeps(s, isBuy, price, id);
    if Resting(t, id) {
      var side, p :| RestingAt(t, side, p, id);
      RestedBefore(s, Runs.Remove(isBuy, price, id), side, p, id);
      RemoveAtIndex(s, isBuy, price, FindId(s.Side(isBuy)[price], id));
      RestingInSound(t, side, p, id);
      assert false;
    }
  }

  // ---------- every event keeps the invariant ----------

  lemma FreshIdRestsNowhere(bound: int, w: World)
    requires Consistent(bound, w) && w.pools.nextId < bound
    ensures !Resting(w.book, w.pools.nextId)
    ensures w.pools.nextId !in w.pools.buySide.ids && w.pools.nextId !in w.pools.sellSide.ids
  {
    forall isBuy, price ensures !RestingAt(w.book, isBuy, price, w.pools.nextId) {
      assert ListedAt(w.pools.Side(isBuy), price, w.pools.nextId) ==> w.pools.nextId in w.pools.Side(isBuy).ids;
    }
  }

  lemma PoolsStayTidy(bound: int, w: World, e: Event)
    requires Consistent(bound, w) && Legal(bound, w, e)
    ensures Tidy(PoolsAfter(w.pools, e))
  {
    match e
    case EmitLimit(isBuy, price, _, _) =>
      FreshIdRestsNowhere(bound, w);
      TrackKeeps(w.pools.Side(isBuy), w.pools.nextId, price);
    case EmitCancel(isBuy, price, place) =>
      UntrackKeeps(w.pools.Side(isBuy), w.pools.Side(isBuy).byPrice[price][place], price);
    case _ =>
  }

  /** The order a cancel names can rest only where it is tracked. */
  lemma CancelledPlace(bound: int, w: World, isBuy: bool, price: int, id: int)
    requires Consistent(bound, w) && ListedAt(w.pools.Side(isBuy), price, id) && IsGenerators(bound, id)
    ensures forall side, p | RestingAt(w.book, side, p, id) :: side == isBuy && p == price
  {
    forall side, p | RestingAt(w.book, side, p, id) ensures side == isBuy && p == price {
      assert ListedAt(w.pools.Side(side), p, id);
      assert id in w.pools.Side(side).ids && id in w.pools.Side(isBuy).ids;
    }
  }

  lemma EventKeepsTracking(bound: int, w: World, e: Event)
    requires Consistent(bound, w) && w.pools.nextId <= bound && Legal(bound, w, e)
    requires Runs.Legal(w.book, OpOf(w.pools, e))
    ensures RestingIsTracked(bound, Apply(w, e))
  {
    var v := Apply(w, e);
    forall isBuy, price, id | IsGenerators(bound, id) && RestingAt(v.book, isBuy, price, id)
      ensures ListedAt(v.pools.Side(isBuy), price, id)
    {
      RestedBefore(w.book, OpOf(w.pools, e), isBuy, price, id);
      if e.EmitLimit? {
        FreshIdRestsNowhere(bound, w);
        TrackKeeps(w.pools.Side(e.isBuy), w.pools.nextId, e.price);
      } else if e.EmitCancel? {
        var gone := w.pools.Side(e.isBuy).byPrice[e.price][e.place];
        assert ListedAt(w.pools.Side(e.isBuy), e.price, gone);
        assert gone in w.pools.Side(e.isBuy).ids;
        CancelledPlace(bound, w, e.isBuy, e.price, gone);
        RemovedIsGone(w.book, e.isBuy, e.price, gone);
        UntrackKeeps(w.pools.Side(e.isBuy), gone, e.price);
        assert id != gone;
      }
    }
  }

  /** One event keeps the agreement of index and levels, the pools' own order, and the tracking of every
      resting generator order; the exact index agreement survives too unless others match or prune. */
  lemma EventKeeps(bound: int, w: World, e: Event)
    requires Consistent(bound, w) && w.pools.nextId <= bound && Legal(bound, w, e)
    ensures Consistent(bound, Apply(w, e)) && Apply(w, e).pools.nextId <= bound
    ensures Exact(w.book) && (e.Outside? ==> Runs.Reindexes(e.op)) ==> Exact(Apply(w, e).book)
  {
    if e.EmitLimit? {
      FreshIdRestsNowhere(bound, w);
    }
    Runs.StepKeeps(w.book, OpOf(w.pools, e));
    PoolsStayTidy(bound, w, e);
    EventKeepsTracking(bound, w, e);
  }

  ghost predicate LegalRun(bound: int, w: World, events: seq<Event>)
    decreases |events|
  {
    events == [] || (Legal(bound, w, events[0]) && w.pools.nextId >= 0 && LegalRun(bound, Apply(w, events[0]), events[1..]))
  }

  ghost function Run(bound: int, w: World, events: seq<Event>): World
    requires LegalRun(bound, w, events)
    decreases |events|
  {
    if events == [] then w else Run(bound, Apply(w, events[0]), events[1..])
  }

  /** For any draws and any interleaving with operations of others on the book. */
  lemma {:induction false} RunKeeps(bound: int, w: World, events: seq<Event>)
    requires Consistent(bound, w) && w.pools.nextId <= bound && LegalRun(bound, w, events)
    ensures Consistent(bound, Run(bound, w, events)) && Run(bound, w, events).pools.nextId <= bound
    ensures Exact(w.book) && (forall i | 0 <= i < |events| && events[i].Outside? :: Runs.Reindexes(events[i].op)) ==>
      Exact(Run(bound, w, events).book)
    decreases |events|
  {
    if events != [] {
      EventKeeps(bound, w, events[0]);
      RunKeeps(bound, Apply(w, events[0]), events[1..]);
    }
  }

  // ---------- where runs start ----------

  const FRESH := Pools(NO_ORDERS, NO_ORDERS, 1)

  /** n orders tracked at consecutive prices away from the other side. */
  function Seeded(pools: Pools, isBuy: bool, from: int, n: nat): Pools {
    if n == 0 then pools
    else Registered(Seeded(pools, isBuy, from, n - 1), isBuy, if isBuy then from - (n - 1) else from + (n - 1))
  }

  const SEEDS: nat := 10

  predicate GoodQuotes(bid: int, ask: int) {
    bid > 0 && ask > 0 && ask > bid
  }

  /** The pools after `reset`, which tracks seed orders on both sides but puts none into the book. */
  function ResetPools(mid: int, bid: int, ask: int): Pools {
    var good := GoodQuotes(bid, ask);
    Seeded(Seeded(FRESH, true, if good then bid else mid - 1, SEEDS), false, if good then ask else mid + 1, SEEDS)
  }

  lemma {:induction false} SeededIsTidy(pools: Pools, isBuy: bool, from: int, n: nat)
    requires Tidy(pools)
    ensures Tidy(Seeded(pools, isBuy, from, n)) && Seeded(pools, isBuy, from, n).nextId == pools.nextId + n
    ensures forall side, p, id | ListedAt(pools.Side(side), p, id) :: ListedAt(Seeded(pools, isBuy, from, n).Side(side), p, id)
  {
    if n > 0 {
      SeededIsTidy(pools, isBuy, from, n - 1);
      var before := Seeded(pools, isBuy, from, n - 1);
      TrackKeeps(before.Side(isBuy), before.nextId, if isBuy then from - (n - 1) else from + (n - 1));
    }
  }

  lemma {:induction false} SeededLists(pools: Pools, isBuy: bool, from: int, n: nat, p: int, id: int)
    requires Tidy(pools)
    ensures ListedAt(Seeded(pools, isBuy, from, n).Side(isBuy), p, id) <==>
      || ListedAt(pools.Side(isBuy), p, id)
      || (pools.nextId <= id < pools.nextId + n && p == if isBuy then from - (id - pools.nextId) else from + (id - pools.nextId))
    ensures Seeded(pools, isBuy, from, n).Side(!isBuy) == pools.Side(!isBuy)
  {
    if n > 0 {
      SeededLists(pools, isBuy, from, n - 1, p, id);
      SeededIsTidy(pools, isBuy, from, n - 1);
      var before := Seeded(pools, isBuy, from, n - 1);
      TrackKeeps(before.Side(isBuy), before.nextId, if isBuy then from - (n - 1) else from + (n - 1));
    }
  }

  /** After a reset the ids 1 to 10 are tracked at the best bid and the nine ticks below it, and 11 to 20 at the
      best ask and the nine ticks above it; quotes that are not positive or cross are replaced by one tick
      around the middle. */
  lemma ResetTracks(mid: int, bid: int, ask: int, p: int, id: int)
    ensures var fine := bid > 0 && ask > 0 && bid < ask;
      var pools := ResetPools(mid, bid, ask);
      && (ListedAt(pools.buySide, p, id) <==> 1 <= id <= 10 && p == (if fine then bid else mid - 1) - (id - 1))
      && (ListedAt(pools.sellSide, p, id) <==> 11 <= id <= 20 && p == (if fine then ask else mid + 1) + (id - 11))
  {
    var fine := bid > 0 && ask > 0 && bid < ask;
    var from, upTo := if fine then bid else mid - 1, if fine then ask else mid + 1;
    var buys := Seeded(FRESH, true, from, SEEDS);
    SeededLists(FRESH, true, from, SEEDS, p, id);
    SeededIsTidy(FRESH, true, from, SEEDS);
    SeededLists(buys, false, upTo, SEEDS, p, id);
    assert Seeded(buys, false, upTo, SEEDS).Side(true) == buys.Side(true);
    assert buys.Side(false) == NO_ORDERS;
  }

  /** Both a new generator and a reset one are consistent with an empty book; after a reset some tracked ids
      rest nowhere, so tracking never implies resting. */
  lemma StartIsConsistent(bound: int, mid: int, bid: int, ask: int)
    ensures Exact(EMPTY)
    ensures Consistent(bound, World(EMPTY, FRESH))
    ensures Consistent(bound, World(EMPTY, ResetPools(mid, bid, ask)))
    ensures ResetPools(mid, bid, ask).nextId == 2 * SEEDS + 1
    ensures exists price, id :: ListedAt(ResetPools(mid, bid, ask).buySide, price, id) && !Resting(EMPTY, id)
  {
    var from := if GoodQuotes(bid, ask) then bid else mid - 1;
    SeededIsTidy(FRESH, true, from, SEEDS);
    SeededIsTidy(Seeded(FRESH, true, from, SEEDS), false, if GoodQuotes(bid, ask) then ask else mid + 1, SEEDS);
    var pools := Seeded(FRESH, true, from, SEEDS);
    var last := from - (SEEDS - 1);
    assert ListedAt(pools.buySide, last, Seeded(FRESH, true, from, SEEDS - 1).nextId);
    assert ListedAt(ResetPools(mid, bid, ask).Side(true), last, Seeded(FRESH, true, from, SEEDS - 1).nextId);
  }

  // ---------- drawing a bucket ----------

  ghost predicate Known(sb: SideBook, prices: seq<int>) {
    forall i | 0 <= i < |prices| :: prices[i] in sb.byPrice
  }

  /** The number of ids in the buckets at these prices. */
  function Total(sb: SideBook, prices: seq<int>): nat
    requires Known(sb, prices)
  {
    if prices == [] then 0
    else Total(sb, prices[..|prices| - 1]) + |sb.byPrice[prices[|prices| - 1]]|
  }

  lemma {:induction false} TotalOfPrefix(sb: SideBook, prices: seq<int>, i: nat)
    requires Known(sb, prices) && i <= |prices|
    ensures Total(sb, prices[..i]) <= Total(sb, prices)
    ensures i < |prices| ==> Total(sb, prices[..i + 1]) == Total(sb, prices[..i]) + |sb.byPrice[prices[i]]|
    decreases |prices|
  {
    assert prices[..|prices|] == prices;
    if i < |prices| {
      assert prices[..i + 1][..i] == prices[..i];
      var shorter := prices[..|prices| - 1];
      assert shorter[..i] == prices[..i];
      TotalOfPrefix(sb, shorter, i);
    }
  }

  /** The prices of a side in the order its hash map iterates, which nothing is assumed about. */
  ghost predicate Enumerates(prices: seq<int>, keys: set<int>) {
    && (forall i | 0 <= i < |prices| :: prices[i] in keys)
    && (forall p | p in keys :: p in prices)
    && forall i, j | 0 <= i < j < |prices| :: prices[i] != prices[j]
  }

  lemma InOrderEnumerates(keys: set<int>)
    ensures Enumerates(InOrder(false, keys), keys)
  {
    InOrderIsSorted(false, keys);
    var prices := InOrder(false, keys);
    forall i, j | 0 <= i < j < |prices| ensures prices[i] != prices[j] {
      assert prices[j] !in prices[..j] && prices[..j][i] == prices[i];
    }
  }

  class MicrostructureGenerator {
    var buySide: SideBook
    var sellSide: SideBook
    var nextOrderId: int
    var swan: BlackSwan.Params
    var counters: BlackSwan.Counters

    function Tracking(): Pools
      reads this
    {
      Pools(buySide, sellSide, nextOrderId)
    }

    function SideOf(isBuy: bool): SideBook
      reads this
    {
      if isBuy then buySide else sellSide
    }

    constructor (swan: BlackSwan.Params)
      ensures Tracking() == FRESH && counters == BlackSwan.CALM && this.swan == swan
    {
      buySide, sellSide, nextOrderId := NO_ORDERS, NO_ORDERS, 1;
      this.swan, counters := swan, BlackSwan.CALM;
    }

    method StoreSide(isBuy: bool, side: SideBook)
      modifies `buySide, `sellSide
      ensures Tracking() == old(Tracking()).WithSide(isBuy, side)
    {
      if isBuy {
        buySide := side;
      } else {
        sellSide := side;
      }
    }

    method TrackNewOrder(isBuy: bool, id: int, price: int)
      modifies `buySide, `sellSide
      ensures Tracking() == old(Tracking()).WithSide(isBuy, Track(old(SideOf(isBuy)), id, price))
    {
      var sb := SideOf(isBuy);
      var list := if price in sb.byPrice then sb.byPrice[price] else [];
      StoreSide(isBuy, SideBook(sb.ids + {id}, sb.byPrice[price := list + [id]]));
    }

    method UntrackOrder(isBuy: bool, id: int, price: int)
      modifies `buySide, `sellSide
      ensures Tracking() == old(Tracking()).WithSide(isBuy, Untrack(old(SideOf(isBuy)), id, price))
    {
      var sb := SideOf(isBuy);
      var byPrice := sb.byPrice;
      if price in byPrice {
        var list := byPrice[price];
        var i := 0;
        while i < |list| && list[i] != id
          invariant 0 <= i <= |list|
          invariant forall j | 0 <= j < i :: list[j] != id
        {
          i := i + 1;
        }
        if i < |list| {
          list := list[i := list[|list| - 1]];
          list := list[..|list| - 1];
        }
        assert list == SwapOut(sb.byPrice[price], id);
        byPrice := if list == [] then byPrice - {price} else byPrice[price := list];
      }
      StoreSide(isBuy, SideBook(sb.ids - {id}, byPrice));
    }

    method EmitLimit(lob: OrderBooks.OrderBook, isBuy: bool, price: int, size: real, timestamp: int)
      requires 0 <= nextOrderId < 0x8000_0000_0000_0000
      modifies `buySide, `sellSide, `nextOrderId, lob`bids, lob`asks, lob`idxMap
      ensures World(lob.State(), Tracking()) ==
        Apply(World(old(lob.State()), old(Tracking())), Event.EmitLimit(isBuy, price, size, timestamp))
      ensures lob.State() == B.Add(old(lob.State()), isBuy, price, Order(old(nextOrderId), size, true, timestamp, 0))
      ensures nextOrderId == old(nextOrderId) + 1
    {
      var id := nextOrderId;
      nextOrderId := nextOrderId + 1;
      var accepted := lob.AddLimitOrderEx(isBuy, price, size, id, true, timestamp, OrderBooks.GTC);
      TrackNewOrder(isBuy, id, price);
    }

    /** The report buffer holds 2048 rows; the book is matched in full all the same. */
    method EmitMarket(lob: OrderBooks.OrderBook, isBuy: bool, size: real)
      modifies lob`bids, lob`asks, lob`idxMap
      ensures World(lob.State(), Tracking()) ==
        Apply(World(old(lob.State()), old(Tracking())), Event.EmitMarket(isBuy, size))
      ensures lob.State() == M.Walk(old(lob.State()), !isBuy, size, true).book && Tracking() == old(Tracking())
    {
      var out := new Report.Row[2048](_ => Report.Row(0.0, 0.0, 0, 0, 0));
      var written, fees := lob.MatchMarketOrder(isBuy, size, true, out, 2048);
    }

    method HashOrder(isBuy: bool) returns (prices: seq<int>)
      ensures Enumerates(prices, SideOf(isBuy).byPrice.Keys)
    {
      prices := InOrder(false, SideOf(isBuy).byPrice.Keys);
      InOrderEnumerates(SideOf(isBuy).byPrice.Keys);
    }

    /** Walks the buckets until the draw falls into one: each bucket is picked by as many draws as it has ids. */
    method PickBucket(isBuy: bool, prices: seq<int>, draw: nat) returns (i: nat)
      requires Known(SideOf(isBuy), prices)
      requires draw < Total(SideOf(isBuy), prices)
      ensures i < |prices|
      ensures Total(SideOf(isBuy), prices[..i]) <= draw < Total(SideOf(isBuy), prices[..i + 1])
    {
      i := 0;
      var r: int := draw;
      assert prices[..|prices|] == prices;
      while i < |prices| && r >= |SideOf(isBuy).byPrice[prices[i]]|
        invariant i <= |prices|
        invariant r == draw - Total(SideOf(isBuy), prices[..i]) >= 0
      {
        TotalOfPrefix(SideOf(isBuy), prices, i);
        r := r - |SideOf(isBuy).byPrice[prices[i]]|;
        i := i + 1;
      }
      if i < |prices| {
        TotalOfPrefix(SideOf(isBuy), prices, i);
      }
    }

    /** Cancels a tracked order: a bucket is drawn by weight and then a place in it. Nothing happens when
        nothing is tracked; otherwise the world moves by a legal cancel. */
    method EmitCancel(lob: OrderBooks.OrderBook, isBuy: bool) returns (ghost happened: bool, ghost price: int, ghost place: nat)
      requires Partitioned(SideOf(isBuy))
      modifies `buySide, `sellSide, lob`bids, lob`asks, lob`idxMap
      ensures happened <==> old(SideOf(isBuy)).ids != {}
      ensures !happened ==> World(lob.State(), Tracking()) == World(old(lob.State()), old(Tracking()))
      ensures happened ==> price in old(SideOf(isBuy)).byPrice && place < |old(SideOf(isBuy)).byPrice[price]|
      ensures var before := World(old(lob.State()), old(Tracking()));
        happened ==> World(lob.State(), Tracking()) == Apply(before, Event.EmitCancel(isBuy, price, place))
    {
      happened, price, place := false, 0, 0;
      ghost var w := World(lob.State(), Tracking());
      var sb := SideOf(isBuy);
      SomeBucket(sb);
      if sb.ids == {} || sb.byPrice == map[] {
        return;
      }
      var prices := HashOrder(isBuy);
      TotalIsPositive(sb, prices);
      var draw: nat :| draw < Total(sb, prices);
      var i := PickBucket(isBuy, prices, draw);
      TotalOfPrefix(sb, prices, i);
      var selected := prices[i];
      var list := sb.byPrice[selected];
      var k: nat :| k < |list|;
      var id := list[k];
      lob.RemoveOrder(isBuy, selected, id);
      UntrackOrder(isBuy, id, selected);
      happened, price, place := true, selected, k;
    }

    /** `reset`: it clears the pools and the counters, and tracks seeds it does not insert. */
    method Reset(mid0: int, bestBid: int, bestAsk: int)
      modifies this
      ensures Tracking() == ResetPools(mid0, bestBid, bestAsk) && counters == BlackSwan.CALM && swan == old(swan)
    {
      buySide, sellSide, nextOrderId := NO_ORDERS, NO_ORDERS, 1;
      counters := BlackSwan.CALM;
      var bid, ask := bestBid, bestAsk;
      if bid <= 0 || ask <= 0 || ask <= bid {
        bid, ask := mid0 - 1, mid0 + 1;
      }
      SeedSide(true, bid, SEEDS);
      SeedSide(false, ask, SEEDS);
    }

    /** The seed loop of one side. */
    method SeedSide(isBuy: bool, from: int, n: nat)
      modifies `buySide, `sellSide, `nextOrderId
      ensures Tracking() == Seeded(old(Tracking()), isBuy, from, n)
    {
      ghost var before := Tracking();
      for i := 0 to n
        invariant Tracking() == Seeded(before, isBuy, from, i)
      {
        var id := nextOrderId;
        nextOrderId := nextOrderId + 1;
        TrackNewOrder(isBuy, id, if isBuy then from - i else from + i);
      }
    }

    /** The black-swan part of `step`; `hit` is the outcome of the draw. */
    method StepBlackSwan(hit: bool) returns (amplified: bool, triggered: bool)
      modifies `counters
      ensures counters == BlackSwan.Next(swan, old(counters), hit)
      ensures amplified <==> BlackSwan.Amplifies(swan, old(counters))
      ensures triggered <==> BlackSwan.Fires(swan, old(counters), hit)
    {
      amplified, triggered := false, false;
      if swan.enabled {
        if counters.left > 0 {
          amplified := true;
          counters := counters.(left := counters.left - 1);
        } else {
          if counters.cooldown > 0 {
            counters := counters.(cooldown := counters.cooldown - 1);
          }
          if counters.cooldown == 0 && hit {
            counters := BlackSwan.Counters(swan.Duration(), swan.Cooldown());
            triggered := true;
          }
        }
      }
    }
  }

  lemma SomeBucket(sb: SideBook)
    requires Partitioned(sb)
    ensures sb.ids != {} ==> sb.byPrice != map[]
  {
    if sb.ids != {} {
      EmptyOrNot(sb.ids);
      var id :| id in sb.ids;
      var p :| ListedAt(sb, p, id);
    }
  }

  lemma TotalIsPositive(sb: SideBook, prices: seq<int>)
    requires Partitioned(sb) && sb.ids != {} && Enumerates(prices, sb.byPrice.Keys)
    ensures Total(sb, prices) > 0
  {
    EmptyOrNot(sb.ids);
    var id :| id in sb.ids;
    var p :| ListedAt(sb, p, id);
    var i :| 0 <= i < |prices| && prices[i] == p;
    TotalOfPrefix(sb, prices, i);
    TotalOfPrefix(sb, prices, i + 1);
  }
}
