/** Time-to-live: setting it, and the decay step that cancels the orders whose time is up. */
module Ttl {
  import opened Sequences
  import opened KeyOrder
  import opened BookState
  import opened Folded
  import opened Removal
  import M = Market

  /** The order with this id rests at this place with this time-to-live. */
  ghost predicate HasTtl(s: Book, isBuy: bool, price: int, id: int, ttl: int) {
    price in s.Side(isBuy) &&
    exists j :: 0 <= j < |s.Side(isBuy)[price]| && s.Side(isBuy)[price][j].id == id && s.Side(isBuy)[price][j].ttl == ttl
  }

  /** In a sound book an id rests at one place, as one order. */
  lemma OnePlace(s: Book, side: bool, price: int, j: nat, side': bool, price': int, j': nat)
    requires Sound(s)
    requires price in s.Side(side) && j < |s.Side(side)[price]|
    requires price' in s.Side(side') && j' < |s.Side(side')[price']|
    requires s.Side(side)[price][j].id == s.Side(side')[price'][j'].id
    ensures side == side' && price == price' && j == j'
  {
    assert QueueSound(s.Side(side)[price], price, side, s.index);
    assert QueueSound(s.Side(side')[price'], price', side', s.index);
  }

  lemma OneOrder(s: Book, side: bool, price: int, j: nat, side': bool, price': int, j': nat)
    requires Sound(s)
    requires price in s.Side(side) && j < |s.Side(side)[price]|
    requires price' in s.Side(side') && j' < |s.Side(side')[price']|
    ensures s.Side(side)[price][j].id == s.Side(side')[price'][j'].id ==>
              s.Side(side)[price][j] == s.Side(side')[price'][j']
  {
    if s.Side(side)[price][j].id == s.Side(side')[price'][j'].id {
      OnePlace(s, side, price, j, side', price', j');
    }
  }

  // ---------- setting ----------

  function SetInQueue(queue: Queue, id: int, ttl: int): (r: Queue)
    ensures |r| == |queue|
    ensures forall j | 0 <= j < |r| :: r[j] == if queue[j].id == id then queue[j].(ttl := ttl) else queue[j]
  {
    seq(|queue|, j requires 0 <= j < |queue| => if queue[j].id == id then queue[j].(ttl := ttl) else queue[j])
  }

  function SetInLevels(levels: Levels, id: int, ttl: int): Levels {
    map p | p in levels :: SetInQueue(levels[p], id, ttl)
  }

  /** `set_order_ttl`, for books in which an id rests at one place only. */
  function SetTtl(s: Book, id: int, ttl: int): Book {
    s.(bids := SetInLevels(s.bids, id, ttl), asks := SetInLevels(s.asks, id, ttl))
  }

  lemma SetTtlKeeps(s: Book, id: int, ttl: int)
    requires Sound(s)
    ensures Sound(SetTtl(s, id, ttl)) && (Exact(s) ==> Exact(SetTtl(s, id, ttl)))
  {
    SameIdsKeep(s, SetTtl(s, id, ttl));
  }

  /** Overwriting the one order with the id is the whole effect. */
  lemma SetTtlAtPlace(s: Book, side: bool, price: int, j: nat, ttl: int)
    requires Sound(s) && price in s.Side(side) && j < |s.Side(side)[price]|
    ensures var queue := s.Side(side)[price];
      SetTtl(s, queue[j].id, ttl) == s.WithSide(side, s.Side(side)[price := queue[j := queue[j].(ttl := ttl)]])
  {
    var queue := s.Side(side)[price];
    var t := SetTtl(s, queue[j].id, ttl);
    var u := s.WithSide(side, s.Side(side)[price := queue[j := queue[j].(ttl := ttl)]]);
    SetTtlSide(s, side, price, j, ttl, true);
    SetTtlSide(s, side, price, j, ttl, false);
    assert t.bids == u.bids && t.asks == u.asks;
  }

  lemma SetTtlSide(s: Book, side: bool, price: int, j: nat, ttl: int, at: bool)
    requires Sound(s) && price in s.Side(side) && j < |s.Side(side)[price]|
    ensures var queue := s.Side(side)[price];
      SetTtl(s, queue[j].id, ttl).Side(at) ==
      s.WithSide(side, s.Side(side)[price := queue[j := queue[j].(ttl := ttl)]]).Side(at)
  {
    var queue := s.Side(side)[price];
    var id := queue[j].id;
    forall p | p in s.Side(at)
      ensures SetInQueue(s.Side(at)[p], id, ttl) ==
              if at == side && p == price then queue[j := queue[j].(ttl := ttl)] else s.Side(at)[p]
    {
      forall k | 0 <= k < |s.Side(at)[p]| && s.Side(at)[p][k].id == id
        ensures at == side && p == price && k == j
      {
        OnePlace(s, side, price, j, at, p, k);
      }
    }
  }

  ghost predicate Lacks(levels: Levels, id: int) {
    forall p | p in levels :: forall j | 0 <= j < |levels[p]| :: levels[p][j].id != id
  }

  lemma SetTtlOfNone(s: Book, id: int, ttl: int)
    requires Lacks(s.bids, id) && Lacks(s.asks, id)
    ensures SetTtl(s, id, ttl) == s && !Resting(s, id)
  {
    forall p | p in s.bids ensures SetInQueue(s.bids[p], id, ttl) == s.bids[p] {
    }
    forall p | p in s.asks ensures SetInQueue(s.asks[p], id, ttl) == s.asks[p] {
    }
    forall isBuy, price ensures !RestingAt(s, isBuy, price, id) {
    }
  }

  // ---------- decay ----------

  function Aged(o: Order): Order {
    if o.ttl > 0 then o.(ttl := o.ttl - 1) else o
  }

  function AgedQueue(queue: Queue): (r: Queue)
    ensures |r| == |queue| && forall j | 0 <= j < |r| :: r[j] == Aged(queue[j])
  {
    seq(|queue|, j requires 0 <= j < |queue| => Aged(queue[j]))
  }

  function AgedLevels(levels: Levels): Levels {
    map p | p in levels :: AgedQueue(levels[p])
  }

  function AgedBook(s: Book): Book {
    s.(bids := AgedLevels(s.bids), asks := AgedLevels(s.asks))
  }

  /** The orders that reach zero in a scan over these offers, as they are listed for removal. */
  function Expiring(isBuy: bool, offers: seq<M.Offer>): seq<Item> {
    if offers == [] then []
    else if offers[0].order.ttl == 1 then [ItemOf(isBuy, offers[0])] + Expiring(isBuy, offers[1..])
    else Expiring(isBuy, offers[1..])
  }

  /** The same orders as the cancel callback sees them, already counted down to zero. */
  function Called(offers: seq<M.Offer>): seq<Order> {
    if offers == [] then []
    else if offers[0].order.ttl == 1 then [Aged(offers[0].order)] + Called(offers[1..])
    else Called(offers[1..])
  }

  function AllExpiring(s: Book): seq<Item> {
    Expiring(true, M.Flat(true, s.bids)) + Expiring(false, M.Flat(false, s.asks))
  }

  function AllCalled(s: Book): seq<Order> {
    Called(M.Flat(true, s.bids)) + Called(M.Flat(false, s.asks))
  }

  /** `decay_ttl_and_cancel`: count every order down, then remove the expired ones in scan order. */
  function Decay(s: Book): Book {
    RemoveAll(AgedBook(s), AllExpiring(s))
  }

  function Unexpired(): Order -> bool {
    (o: Order) => o.ttl != 1
  }

  /** What a decay step leaves of a side: orders at their last step are gone, others are one step older. */
  function Survivors(levels: Levels): Levels {
    map p | p in levels && Filter(levels[p], Unexpired()) != [] :: AgedQueue(Filter(levels[p], Unexpired()))
  }

  lemma {:induction false} ExpiringMembers(isBuy: bool, offers: seq<M.Offer>, item: Item)
    ensures item in Expiring(isBuy, offers) <==>
              exists i :: 0 <= i < |offers| && offers[i].order.ttl == 1 && item == ItemOf(isBuy, offers[i])
  {
    if offers != [] {
      ExpiringMembers(isBuy, offers[1..], item);
      if i :| 0 <= i < |offers| && offers[i].order.ttl == 1 && item == ItemOf(isBuy, offers[i]) {
        if i > 0 {
          assert offers[1..][i - 1] == offers[i];
        }
      }
      if i :| 0 <= i < |offers[1..]| && offers[1..][i].order.ttl == 1 && item == ItemOf(isBuy, offers[1..][i]) {
        assert offers[i + 1] == offers[1..][i];
      }
    }
  }

  /** The listed orders are exactly the resting orders with one step to live. */
  lemma ExpiringIsLastStep(s: Book, item: Item)
    ensures item in AllExpiring(s) <==> HasTtl(s, item.isBuy, item.price, item.id, 1)
  {
    ExpiringMembers(item.isBuy, M.Flat(item.isBuy, s.Side(item.isBuy)), item);
    ExpiringOneSide(!item.isBuy, M.Flat(!item.isBuy, s.Side(!item.isBuy)), item);
    var offers := M.Flat(item.isBuy, s.Side(item.isBuy));
    if i :| 0 <= i < |offers| && offers[i].order.ttl == 1 && item == ItemOf(item.isBuy, offers[i]) {
      M.FlatMembers(item.isBuy, s.Side(item.isBuy), offers[i]);
      var queue := s.Side(item.isBuy)[item.price];
      var j :| 0 <= j < |queue| && queue[j] == offers[i].order;
    }
    if HasTtl(s, item.isBuy, item.price, item.id, 1) {
      var queue := s.Side(item.isBuy)[item.price];
      var j :| 0 <= j < |queue| && queue[j].id == item.id && queue[j].ttl == 1;
      M.FlatMembers(item.isBuy, s.Side(item.isBuy), M.Offer(item.price, queue[j]));
      var i :| 0 <= i < |offers| && offers[i] == M.Offer(item.price, queue[j]);
    }
  }

  lemma ExpiringOneSide(isBuy: bool, offers: seq<M.Offer>, item: Item)
    requires item.isBuy != isBuy
    ensures item !in Expiring(isBuy, offers)
  {
    ExpiringMembers(isBuy, offers, item);
  }

  lemma ExpiringIsPlaced(s: Book, item: Item)
    requires Sound(s) && item in AllExpiring(s)
    ensures Sound(AgedBook(s)) && RestingAt(AgedBook(s), item.isBuy, item.price, item.id) && Placed(AgedBook(s), item)
  {
    ExpiringIsLastStep(s, item);
    SameIdsKeep(s, AgedBook(s));
    var queue := s.Side(item.isBuy)[item.price];
    var j :| 0 <= j < |queue| && queue[j].id == item.id && queue[j].ttl == 1;
    assert AgedBook(s).Side(item.isBuy)[item.price][j].id == item.id;
  }

  lemma ExpiredIds(s: Book, side: bool, price: int, j: nat)
    requires Sound(s) && price in s.Side(side) && j < |s.Side(side)[price]|
    ensures s.Side(side)[price][j].id in Ids(AllExpiring(s)) <==> s.Side(side)[price][j].ttl == 1
  {
    var o := s.Side(side)[price][j];
    var items := AllExpiring(s);
    if o.id in Ids(items) {
      var i :| 0 <= i < |items| && items[i].id == o.id;
      ExpiringIsLastStep(s, items[i]);
      var queue := s.Side(items[i].isBuy)[items[i].price];
      var k :| 0 <= k < |queue| && queue[k].id == o.id && queue[k].ttl == 1;
      OnePlace(s, side, price, j, items[i].isBuy, items[i].price, k);
    }
    if o.ttl == 1 {
      var item := Item(side, price, o.id);
      assert HasTtl(s, side, price, o.id, 1);
      ExpiringIsLastStep(s, item);
      var i :| 0 <= i < |items| && items[i] == item;
    }
  }

  lemma {:induction false} FilterAged(queue: Queue, ids: set<int>)
    requires forall j | 0 <= j < |queue| :: queue[j].id in ids <==> queue[j].ttl == 1
    ensures Filter(AgedQueue(queue), Except(ids)) == AgedQueue(Filter(queue, Unexpired()))
  {
    if queue != [] {
      var front := queue[..|queue| - 1];
      FilterAged(front, ids);
      assert AgedQueue(queue)[..|queue| - 1] == AgedQueue(front);
      assert Aged(queue[|queue| - 1]).id == queue[|queue| - 1].id;
    }
  }

  lemma SurvivorsOfQueue(s: Book, side: bool, price: int)
    requires Sound(s) && price in s.Side(side)
    ensures Filter(AgedQueue(s.Side(side)[price]), Except(Ids(AllExpiring(s)))) ==
            AgedQueue(Filter(s.Side(side)[price], Unexpired()))
  {
    forall j | 0 <= j < |s.Side(side)[price]|
      ensures s.Side(side)[price][j].id in Ids(AllExpiring(s)) <==> s.Side(side)[price][j].ttl == 1
    {
      ExpiredIds(s, side, price, j);
    }
    FilterAged(s.Side(side)[price], Ids(AllExpiring(s)));
  }

  lemma SurvivorsAt(s: Book, side: bool, p: int)
    requires Sound(s)
    ensures var strip := Strip(AgedLevels(s.Side(side)), Ids(AllExpiring(s)));
      QueueAt(strip, p) == QueueAt(Survivors(s.Side(side)), p) && (p in strip <==> p in Survivors(s.Side(side)))
  {
    if p in s.Side(side) {
      SurvivorsOfQueue(s, side, p);
    }
  }

  lemma SurvivorsOfSide(s: Book, side: bool)
    requires Sound(s)
    ensures Strip(AgedLevels(s.Side(side)), Ids(AllExpiring(s))) == Survivors(s.Side(side))
  {
    var strip, left := Strip(AgedLevels(s.Side(side)), Ids(AllExpiring(s))), Survivors(s.Side(side));
    forall p ensures (p in strip <==> p in left) && (p in strip ==> strip[p] == left[p]) {
      SurvivorsAt(s, side, p);
    }
  }

  /** Removing the listed orders one at a time leaves exactly the survivors, in their old order. */
  lemma DecayEffect(s: Book)
    requires Sound(s)
    ensures Decay(s).bids == Survivors(s.bids)
    ensures Decay(s).asks == Survivors(s.asks)
    ensures Sound(Decay(s)) && (Exact(s) ==> Exact(Decay(s)))
  {
    var t := AgedBook(s);
    SameIdsKeep(s, t);
    forall i | 0 <= i < |AllExpiring(s)| ensures Placed(t, AllExpiring(s)[i]) {
      assert AllExpiring(s)[i] in AllExpiring(s);
      ExpiringIsPlaced(s, AllExpiring(s)[i]);
    }
    RemoveAllStrips(t, AllExpiring(s));
    SurvivorsOfSide(s, true);
    SurvivorsOfSide(s, false);
  }

  lemma LastStepIsGone(s: Book, isBuy: bool, price: int, id: int, side: bool, p: int)
    requires Sound(s) && HasTtl(s, isBuy, price, id, 1)
    ensures !RestingAt(Decay(s), side, p, id)
  {
    DecayEffect(s);
    var t := Decay(s);
    if p in t.Side(side) {
      var kept := Filter(s.Side(side)[p], Unexpired());
      forall k | 0 <= k < |kept| ensures kept[k].id != id {
        assert kept[k] in kept;
        FilterMembers(s.Side(side)[p], Unexpired());
        var j' :| 0 <= j' < |s.Side(side)[p]| && s.Side(side)[p][j'] == kept[k];
        var j :| 0 <= j < |s.Side(isBuy)[price]| && s.Side(isBuy)[price][j].id == id && s.Side(isBuy)[price][j].ttl == 1;
        OneOrder(s, isBuy, price, j, side, p, j');
      }
      assert t.Side(side)[p] == AgedQueue(kept);
    }
  }

  lemma AgedSurvives(queue: Queue, j: nat) returns (k: nat)
    requires j < |queue| && queue[j].ttl != 1
    ensures k < |AgedQueue(Filter(queue, Unexpired()))| && AgedQueue(Filter(queue, Unexpired()))[k] == Aged(queue[j])
  {
    var kept := Filter(queue, Unexpired());
    FilterMembers(queue, Unexpired());
    assert queue[j] in queue && queue[j] in kept;
    k :| 0 <= k < |kept| && kept[k] == queue[j];
  }

  lemma SurvivorWas(queue: Queue, k: nat) returns (j: nat)
    requires k < |AgedQueue(Filter(queue, Unexpired()))|
    ensures j < |queue| && queue[j].ttl != 1 && AgedQueue(Filter(queue, Unexpired()))[k] == Aged(queue[j])
  {
    var kept := Filter(queue, Unexpired());
    FilterMembers(queue, Unexpired());
    assert kept[k] in kept && kept[k] in queue;
    j :| 0 <= j < |queue| && queue[j] == kept[k];
  }

  lemma StaysBehind(s: Book, isBuy: bool, price: int, id: int, ttl: int)
    requires Sound(s) && HasTtl(s, isBuy, price, id, ttl) && ttl != 1
    ensures HasTtl(Decay(s), isBuy, price, id, if ttl > 0 then ttl - 1 else ttl)
  {
    DecayEffect(s);
    var queue := s.Side(isBuy)[price];
    var j :| 0 <= j < |queue| && queue[j].id == id && queue[j].ttl == ttl;
    var k := AgedSurvives(queue, j);
    assert Decay(s).Side(isBuy) == Survivors(s.Side(isBuy));
    assert Decay(s).Side(isBuy)[price][k] == Aged(queue[j]);
  }

  /** One decay step, seen from one order: with time-to-live 1 it is cancelled, otherwise it stays with
      one step less, or with no limit at all if it had none. */
  lemma DecayOfOne(s: Book, isBuy: bool, price: int, id: int, ttl: int)
    requires Sound(s) && HasTtl(s, isBuy, price, id, ttl)
    ensures ttl == 1 ==> !Resting(Decay(s), id)
    ensures ttl != 1 ==> HasTtl(Decay(s), isBuy, price, id, if ttl > 0 then ttl - 1 else ttl)
  {
    if ttl == 1 {
      forall side, p ensures !RestingAt(Decay(s), side, p, id) {
        LastStepIsGone(s, isBuy, price, id, side, p);
      }
    } else {
      StaysBehind(s, isBuy, price, id, ttl);
    }
  }

  /** The callback is called once for each listed order, with its time-to-live at zero. */
  lemma {:induction false} CalledOnceEach(isBuy: bool, offers: seq<M.Offer>)
    ensures |Called(offers)| == |Expiring(isBuy, offers)|
    ensures forall i | 0 <= i < |Called(offers)| ::
              Called(offers)[i].id == Expiring(isBuy, offers)[i].id && Called(offers)[i].ttl == 0
  {
    if offers != [] {
      CalledOnceEach(isBuy, offers[1..]);
    }
  }

  /** No order is listed twice. */
  lemma {:induction false} ExpiringIsDistinct(isBuy: bool, offers: seq<M.Offer>)
    requires M.DistinctOffers(offers)
    ensures forall i, j | 0 <= i < j < |Expiring(isBuy, offers)| ::
              Expiring(isBuy, offers)[i].id != Expiring(isBuy, offers)[j].id
  {
    if offers != [] {
      ExpiringIsDistinct(isBuy, offers[1..]);
      var behind := Expiring(isBuy, offers[1..]);
      forall j | 0 <= j < |behind| ensures behind[j].id != offers[0].order.id {
        assert behind[j] in behind;
        ExpiringMembers(isBuy, offers[1..], behind[j]);
      }
    }
  }

  // ---------- the priority order and the size of the book after a step ----------

  function AgedOffers(offers: seq<M.Offer>): (r: seq<M.Offer>)
    ensures |r| == |offers| && forall i | 0 <= i < |r| :: r[i] == M.Offer(offers[i].price, Aged(offers[i].order))
  {
    seq(|offers|, i requires 0 <= i < |offers| => M.Offer(offers[i].price, Aged(offers[i].order)))
  }

  /** The offers that are not at their last step. */
  function Lasting(offers: seq<M.Offer>): seq<M.Offer> {
    if offers == [] then []
    else if offers[0].order.ttl == 1 then Lasting(offers[1..])
    else [offers[0]] + Lasting(offers[1..])
  }

  lemma {:induction false} FlatOfAged(isBuy: bool, levels: Levels)
    ensures M.Flat(isBuy, AgedLevels(levels)) == AgedOffers(M.Flat(isBuy, levels))
    decreases |levels|
  {
    if levels == map[] {
      assert AgedLevels(levels) == map[];
    } else {
      var best := Best(isBuy, levels);
      M.FewerLevels(levels, best);
      FlatOfAged(isBuy, levels - {best});
      assert AgedLevels(levels).Keys == levels.Keys;
      assert AgedLevels(levels) - {best} == AgedLevels(levels - {best});
      assert AgedOffers(M.Tag(best, levels[best])) == M.Tag(best, AgedQueue(levels[best]));
    }
  }

  lemma {:induction false} KeepOffersOfAged(offers: seq<M.Offer>, ids: set<int>)
    requires forall i | 0 <= i < |offers| :: offers[i].order.id in ids <==> offers[i].order.ttl == 1
    ensures KeepOffers(AgedOffers(offers), ids) == AgedOffers(Lasting(offers))
  {
    if offers != [] {
      KeepOffersOfAged(offers[1..], ids);
      assert AgedOffers(offers)[1..] == AgedOffers(offers[1..]);
    }
  }

  lemma {:induction false} LastingAndExpiring(isBuy: bool, offers: seq<M.Offer>)
    ensures |Lasting(offers)| + |Expiring(isBuy, offers)| == |offers|
  {
    if offers != [] {
      LastingAndExpiring(isBuy, offers[1..]);
    }
  }

  /** A decay step leaves the priority order of the orders that are not at their last step, each one
      step older; so a side loses as many orders as were listed on it. */
  lemma DecayInOrder(s: Book, side: bool)
    requires Sound(s)
    ensures M.Flat(side, Decay(s).Side(side)) == AgedOffers(Lasting(M.Flat(side, s.Side(side))))
    ensures |M.Flat(side, Decay(s).Side(side))| ==
            |M.Flat(side, s.Side(side))| - |Expiring(side, M.Flat(side, s.Side(side)))|
  {
    var offers, ids := M.Flat(side, s.Side(side)), Ids(AllExpiring(s));
    DecayEffect(s);
    SurvivorsOfSide(s, side);
    FlatOfStrip(side, AgedLevels(s.Side(side)), ids);
    FlatOfAged(side, s.Side(side));
    forall i | 0 <= i < |offers| ensures offers[i].order.id in ids <==> offers[i].order.ttl == 1 {
      OfferExpires(s, side, offers[i]);
    }
    KeepOffersOfAged(offers, ids);
    LastingAndExpiring(side, offers);
  }

  lemma OfferExpires(s: Book, side: bool, offer: M.Offer)
    requires Sound(s) && offer in M.Flat(side, s.Side(side))
    ensures offer.order.id in Ids(AllExpiring(s)) <==> offer.order.ttl == 1
  {
    M.FlatMembers(side, s.Side(side), offer);
    var j :| 0 <= j < |s.Side(side)[offer.price]| && s.Side(side)[offer.price][j] == offer.order;
    ExpiredIds(s, side, offer.price, j);
  }

  /** How many orders rest on the two sides. */
  function Size(s: Book): nat {
    |M.Flat(true, s.bids)| + |M.Flat(false, s.asks)|
  }

  /** The book loses exactly as many orders as the cancel callback is called for. */
  lemma DecayCancels(s: Book)
    requires Sound(s)
    ensures Size(Decay(s)) == Size(s) - |AllCalled(s)|
  {
    DecayInOrder(s, true);
    DecayInOrder(s, false);
    CalledOnceEach(true, M.Flat(true, s.bids));
    CalledOnceEach(false, M.Flat(false, s.asks));
  }

  // ---------- the scan, step by step ----------

  datatype Scan = Scan(levels: Levels, items: seq<Item>, called: seq<Order>)

  /** Counting the levels at these prices down one after the other, listing the orders that expire. */
  function ScanAt(isBuy: bool, levels: Levels, prices: seq<int>): Scan
    decreases |prices|
  {
    if prices == [] then Scan(levels, [], []) else
      var tag := M.Tag(prices[0], QueueAt(levels, prices[0]));
      var rest := ScanAt(isBuy, levels[prices[0] := AgedQueue(QueueAt(levels, prices[0]))], prices[1..]);
      Scan(rest.levels, Expiring(isBuy, tag) + rest.items, Called(tag) + rest.called)
  }

  /** The scan so far plus what it would still do from the i-th price on is the whole scan. */
  ghost predicate ScanSoFar(isBuy: bool, levels: Levels, prices: seq<int>, i: nat, now: Levels,
      items: seq<Item>, called: seq<Order>)
  {
    i <= |prices| &&
    forall x {:trigger Open(x, i)} :: Open(x, i) ==>
      var rest := ScanAt(isBuy, now, prices[i..]);
      ScanAt(isBuy, levels, prices) == Scan(rest.levels, items + rest.items, called + rest.called)
  }

  lemma ScanSoFarStart(isBuy: bool, levels: Levels, prices: seq<int>)
    ensures ScanSoFar(isBuy, levels, prices, 0, levels, [], [])
  {
    assert prices[0..] == prices;
    var all := ScanAt(isBuy, levels, prices);
    assert [] + all.items == all.items && [] + all.called == all.called;
  }

  lemma ScanSoFarStep(isBuy: bool, levels: Levels, prices: seq<int>, i: nat, now: Levels,
      items: seq<Item>, called: seq<Order>)
    requires ScanSoFar(isBuy, levels, prices, i, now, items, called) && i < |prices| && prices[i] in now
    ensures var tag := M.Tag(prices[i], now[prices[i]]);
      ScanSoFar(isBuy, levels, prices, i + 1, now[prices[i] := AgedQueue(now[prices[i]])],
        items + Expiring(isBuy, tag), called + Called(tag))
  {
    assert Open(0, i);
    assert prices[i..][1..] == prices[i + 1..];
    var tag := M.Tag(prices[i], now[prices[i]]);
    var rest := ScanAt(isBuy, now[prices[i] := AgedQueue(now[prices[i]])], prices[i + 1..]);
    Associative(items, Expiring(isBuy, tag), rest.items);
    Associative(called, Called(tag), rest.called);
  }

  lemma ScanSoFarEnd(isBuy: bool, levels: Levels, prices: seq<int>, now: Levels, items: seq<Item>, called: seq<Order>)
    requires ScanSoFar(isBuy, levels, prices, |prices|, now, items, called)
    ensures ScanAt(isBuy, levels, prices) == Scan(now, items, called)
  {
    assert Open(0, |prices|);
    assert prices[|prices|..] == [];
  }

  function Only(levels: Levels, prices: set<int>): Levels {
    map p | p in levels && p in prices :: levels[p]
  }

  function AgedOnly(levels: Levels, prices: set<int>): Levels {
    map p | p in levels :: if p in prices then AgedQueue(levels[p]) else levels[p]
  }

  lemma ScanAtFirst(isBuy: bool, levels: Levels, prices: set<int>)
    requires prices != {} && prices <= levels.Keys
    ensures var p := First(isBuy, prices);
      var rest := ScanAt(isBuy, levels[p := AgedQueue(levels[p])], InOrder(isBuy, prices - {p}));
      ScanAt(isBuy, levels, InOrder(isBuy, prices)) ==
      Scan(rest.levels, Expiring(isBuy, M.Tag(p, levels[p])) + rest.items, Called(M.Tag(p, levels[p])) + rest.called)
  {
    var p := First(isBuy, prices);
    assert InOrder(isBuy, prices) == [p] + InOrder(isBuy, prices - {p});
    assert InOrder(isBuy, prices)[1..] == InOrder(isBuy, prices - {p});
    assert QueueAt(levels, p) == levels[p];
  }

  lemma OnlyFirst(isBuy: bool, levels: Levels, prices: set<int>)
    requires prices != {} && prices <= levels.Keys
    ensures var p := First(isBuy, prices);
      var next := levels[p := AgedQueue(levels[p])];
      && Only(next, prices - {p}) == Only(levels, prices) - {p}
      && AgedOnly(next, prices - {p}) == AgedOnly(levels, prices)
      && M.Flat(isBuy, Only(levels, prices)) == M.Tag(p, levels[p]) + M.Flat(isBuy, Only(levels, prices) - {p})
  {
    var p := First(isBuy, prices);
    assert Only(levels, prices).Keys == prices;
    assert p in Only(levels, prices) && Only(levels, prices)[p] == levels[p];
    assert Best(isBuy, Only(levels, prices)) == p;
  }

  lemma {:induction false} ScanAtKeys(isBuy: bool, levels: Levels, prices: set<int>)
    requires prices <= levels.Keys
    ensures ScanAt(isBuy, levels, InOrder(isBuy, prices)) ==
      Scan(AgedOnly(levels, prices), Expiring(isBuy, M.Flat(isBuy, Only(levels, prices))),
        Called(M.Flat(isBuy, Only(levels, prices))))
    decreases |prices|
  {
    if prices == {} {
      assert AgedOnly(levels, prices) == levels && Only(levels, prices) == map[];
    } else {
      var p := First(isBuy, prices);
      ScanAtKeys(isBuy, levels[p := AgedQueue(levels[p])], prices - {p});
      ScanAtFirst(isBuy, levels, prices);
      OnlyFirst(isBuy, levels, prices);
      ExpiringOfConcat(isBuy, M.Tag(p, levels[p]), M.Flat(isBuy, Only(levels, prices) - {p}));
    }
  }

  /** Scanning every level counts the whole side down and lists the orders with one step to live. */
  lemma ScanAtAll(isBuy: bool, levels: Levels)
    ensures ScanAt(isBuy, levels, InOrder(isBuy, levels.Keys)) ==
      Scan(AgedLevels(levels), Expiring(isBuy, M.Flat(isBuy, levels)), Called(M.Flat(isBuy, levels)))
  {
    ScanAtKeys(isBuy, levels, levels.Keys);
    assert AgedOnly(levels, levels.Keys) == AgedLevels(levels) && Only(levels, levels.Keys) == levels;
  }

  /** A queue whose first j orders have been counted down. */
  function AgedPrefix(queue: Queue, j: nat): Queue {
    seq(|queue|, k requires 0 <= k < |queue| => if k < j then Aged(queue[k]) else queue[k])
  }

  ghost predicate QueueScan(isBuy: bool, price: int, queue: Queue, j: nat, now: Queue, items: seq<Item>, called: seq<Order>) {
    j <= |queue| && |now| == |queue| &&
    forall x {:trigger Open(x, j)} :: Open(x, j) ==>
      && now == AgedPrefix(queue, j)
      && items == Expiring(isBuy, M.Tag(price, queue)[..j])
      && called == Called(M.Tag(price, queue)[..j])
  }

  lemma QueueScanStart(isBuy: bool, price: int, queue: Queue)
    ensures QueueScan(isBuy, price, queue, 0, queue, [], [])
  {
    assert M.Tag(price, queue)[..0] == [];
    assert AgedPrefix(queue, 0) == queue;
  }

  lemma QueueScanStep(isBuy: bool, price: int, queue: Queue, j: nat, now: Queue, items: seq<Item>, called: seq<Order>)
    requires QueueScan(isBuy, price, queue, j, now, items, called) && j < |queue|
    ensures now[j] == queue[j]
    ensures var o := queue[j];
      QueueScan(isBuy, price, queue, j + 1, now[j := Aged(o)],
        items + (if o.ttl == 1 then [Item(isBuy, price, o.id)] else []),
        called + (if o.ttl == 1 then [Aged(o)] else []))
  {
    assert Open(0, j);
    var tag := M.Tag(price, queue);
    assert tag[..j + 1] == tag[..j] + [tag[j]];
    ExpiringOfConcat(isBuy, tag[..j], [tag[j]]);
    assert [tag[j]][1..] == [];
    assert Expiring(isBuy, [tag[j]]) == if queue[j].ttl == 1 then [Item(isBuy, price, queue[j].id)] else [];
    assert Called([tag[j]]) == if queue[j].ttl == 1 then [Aged(queue[j])] else [];
    assert AgedPrefix(queue, j + 1) == AgedPrefix(queue, j)[j := Aged(queue[j])];
  }

  lemma QueueScanEnd(isBuy: bool, price: int, queue: Queue, now: Queue, items: seq<Item>, called: seq<Order>)
    requires QueueScan(isBuy, price, queue, |queue|, now, items, called)
    ensures now == AgedQueue(queue)
    ensures items == Expiring(isBuy, M.Tag(price, queue)) && called == Called(M.Tag(price, queue))
  {
    assert Open(0, |queue|);
    assert M.Tag(price, queue)[..|queue|] == M.Tag(price, queue);
  }

  lemma {:induction false} ExpiringOfConcat(isBuy: bool, a: seq<M.Offer>, b: seq<M.Offer>)
    ensures Expiring(isBuy, a + b) == Expiring(isBuy, a) + Expiring(isBuy, b)
    ensures Called(a + b) == Called(a) + Called(b)
  {
    if a == [] {
      assert a + b == b;
    } else {
      ExpiringOfConcat(isBuy, a[1..], b);
      assert (a + b)[1..] == a[1..] + b;
      assert (a + b)[0] == a[0];
    }
  }
}
