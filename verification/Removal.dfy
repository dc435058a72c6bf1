/** The operations that take several orders out: TTL decay, random cancellation and pruning. */
module Removal {
  import opened Sequences
  import opened BookState
  import opened Folded
  import M = Market
  import V = Reservoir

  // ---------- filtering queues and sides ----------

  function Filter(queue: Queue, keep: Order -> bool): (r: Queue)
    ensures |r| <= |queue|
  {
    if queue == [] then [] else
      var last := queue[|queue| - 1];
      Filter(queue[..|queue| - 1], keep) + (if keep(last) then [last] else [])
  }

  ghost predicate StoodFrom(queue: Queue, o: Order, k: int) {
    exists j :: k <= j < |queue| && 0 <= j && queue[j] == o
  }

  /** A filtered queue keeps its order: the k-th survivor stood at place k or later. */
  lemma {:induction false} FilterKeepsOrder(queue: Queue, keep: Order -> bool, k: nat)
    requires k < |Filter(queue, keep)|
    ensures StoodFrom(queue, Filter(queue, keep)[k], k)
  {
    var front := queue[..|queue| - 1];
    var f, r := Filter(front, keep), Filter(queue, keep);
    if k < |f| {
      FilterKeepsOrder(front, keep, k);
      var j :| k <= j < |front| && 0 <= j && front[j] == f[k];
      assert queue[j] == r[k];
    } else {
      assert queue[|queue| - 1] == r[k];
    }
  }

  lemma {:induction false} FilterKeepsDistinct(queue: Queue, keep: Order -> bool)
    requires Distinct(queue)
    ensures Distinct(Filter(queue, keep))
  {
    if queue != [] {
      var front, last := queue[..|queue| - 1], queue[|queue| - 1];
      FilterKeepsDistinct(front, keep);
      FilterMembers(front, keep);
      assert forall o | o in Filter(front, keep) :: o in front && o.id != last.id;
    }
  }

  lemma {:induction false} FilterMembers(queue: Queue, keep: Order -> bool)
    ensures forall o :: o in Filter(queue, keep) <==> o in queue && keep(o)
  {
    if queue != [] {
      var front, last := queue[..|queue| - 1], queue[|queue| - 1];
      FilterMembers(front, keep);
      assert queue == front + [last];
    }
  }

  lemma {:induction false} FilterAll(queue: Queue, keep: Order -> bool)
    requires forall o | o in queue :: keep(o)
    ensures Filter(queue, keep) == queue
  {
    if queue != [] {
      var front := queue[..|queue| - 1];
      assert forall o | o in front :: o in queue;
      FilterAll(front, keep);
    }
  }

  lemma {:induction false} FilterTwice(queue: Queue, first: Order -> bool, second: Order -> bool, both: Order -> bool)
    requires forall o | o in queue :: both(o) <==> first(o) && second(o)
    ensures Filter(Filter(queue, first), second) == Filter(queue, both)
  {
    if queue != [] {
      var front, last := queue[..|queue| - 1], queue[|queue| - 1];
      assert forall o | o in front :: o in queue;
      FilterTwice(front, first, second, both);
      var f := Filter(front, first);
      if first(last) {
        assert (f + [last])[..|f|] == f;
      } else {
        assert f + [] == f;
      }
    }
  }

  /** Every level filtered; levels left without orders disappear. */
  function FilterLevels(levels: Levels, keep: Order -> bool): Levels {
    map p | p in levels && Filter(levels[p], keep) != [] :: Filter(levels[p], keep)
  }

  /** Filtering the levels at these prices one after the other, erasing those left empty. */
  function FilterAt(levels: Levels, prices: seq<int>, keep: Order -> bool): Levels
    decreases |prices|
  {
    if prices == [] then levels
    else FilterAt(Put(levels, prices[0], Filter(QueueAt(levels, prices[0]), keep)), prices[1..], keep)
  }

  lemma {:induction false} FilterAtQueue(levels: Levels, prices: seq<int>, keep: Order -> bool, p: int)
    ensures QueueAt(FilterAt(levels, prices, keep), p) ==
            if p in prices then Filter(QueueAt(levels, p), keep) else QueueAt(levels, p)
    ensures p in prices && p in FilterAt(levels, prices, keep) ==> QueueAt(FilterAt(levels, prices, keep), p) != []
    ensures p !in prices ==> (p in FilterAt(levels, prices, keep) <==> p in levels)
    decreases |prices|
  {
    if prices != [] {
      FilterAtQueue(Put(levels, prices[0], Filter(QueueAt(levels, prices[0]), keep)), prices[1..], keep, p);
      FilterTwice(QueueAt(levels, p), keep, keep, keep);
      assert prices == [prices[0]] + prices[1..];
    }
  }

  /** Visiting every level filters the whole side. */
  lemma FilterAtAll(levels: Levels, prices: seq<int>, keep: Order -> bool)
    requires forall p :: p in prices <==> p in levels
    ensures FilterAt(levels, prices, keep) == FilterLevels(levels, keep)
  {
    var r, filtered := FilterAt(levels, prices, keep), FilterLevels(levels, keep);
    forall p
      ensures p in r <==> p in filtered
      ensures p in r && p in filtered ==> r[p] == filtered[p]
    {
      FilterAtQueue(levels, prices, keep, p);
    }
  }

  function Except(ids: set<int>): Order -> bool {
    (o: Order) => o.id !in ids
  }

  /** A side without the orders whose ids are given. */
  function Strip(levels: Levels, ids: set<int>): Levels {
    FilterLevels(levels, Except(ids))
  }

  lemma StripTwice(levels: Levels, a: set<int>, b: set<int>)
    ensures Strip(Strip(levels, a), b) == Strip(levels, a + b)
  {
    forall p | p in levels
      ensures Filter(Filter(levels[p], Except(a)), Except(b)) == Filter(levels[p], Except(a + b))
    {
      FilterTwice(levels[p], Except(a), Except(b), Except(a + b));
    }
  }

  // ---------- removing one order, seen from the levels ----------

  lemma FilterOfSnoc(queue: Queue, last: Order, keep: Order -> bool)
    ensures Filter(queue + [last], keep) == Filter(queue, keep) + (if keep(last) then [last] else [])
  {
    assert (queue + [last])[..|queue|] == queue;
  }

  lemma {:induction false} DropIsFilter(queue: Queue, i: nat)
    requires i < |queue| && Distinct(queue)
    ensures Drop(queue, i) == Filter(queue, Except({queue[i].id}))
  {
    var front, last := queue[..|queue| - 1], queue[|queue| - 1];
    var keep := Except({queue[i].id});
    assert queue == front + [last];
    FilterOfSnoc(front, last, keep);
    if i == |queue| - 1 {
      FilterAll(front, keep);
      assert Drop(queue, i) == front;
    } else {
      assert Except({front[i].id}) == keep;
      DropIsFilter(front, i);
      assert Drop(queue, i) == Drop(front, i) + [last];
    }
  }

  lemma IsStrip(levels: Levels, ids: set<int>, r: Levels)
    requires r.Keys <= levels.Keys && forall p | p in r :: r[p] != []
    requires forall p | p in levels :: Filter(levels[p], Except(ids)) == QueueAt(r, p)
    ensures r == Strip(levels, ids)
  {
    var strip := Strip(levels, ids);
    forall p
      ensures p in r <==> p in strip
      ensures p in r && p in strip ==> r[p] == strip[p]
    {
      assert p in r ==> QueueAt(r, p) == r[p] && p in levels;
      assert p in levels ==> Filter(levels[p], Except(ids)) == QueueAt(r, p);
    }
  }

  /** What a removal leaves at each price. */
  lemma QueueAfterRemove(s: Book, isBuy: bool, price: int, id: int, side: bool, p: int)
    requires id >= 0 && p in s.Side(side) && s.Side(side)[p] != []
    ensures var queue := s.Side(side)[p];
      QueueAt(Remove(s, isBuy, price, id).Side(side), p) ==
      if side == isBuy && p == price && FindId(queue, id) < |queue| then Drop(queue, FindId(queue, id)) else queue
  {
  }

  /** A queue without the order that has the id, if there is one. */
  lemma StripsOne(queue: Queue, id: int)
    requires Distinct(queue)
    ensures var i := FindId(queue, id);
      Filter(queue, Except({id})) == if i < |queue| then Drop(queue, i) else queue
  {
    var i := FindId(queue, id);
    if i < |queue| {
      DropIsFilter(queue, i);
    } else {
      FilterAll(queue, Except({id}));
    }
  }

  lemma FoundRests(s: Book, side: bool, p: int, id: int)
    requires p in s.Side(side) && FindId(s.Side(side)[p], id) < |s.Side(side)[p]|
    ensures RestingAt(s, side, p, id) && Resting(s, id)
  {
    assert s.Side(side)[p][FindId(s.Side(side)[p], id)].id == id;
  }

  lemma RemoveStripsQueue(s: Book, isBuy: bool, price: int, id: int, side: bool, p: int)
    requires Sound(s) && id >= 0
    requires Resting(s, id) ==> RestingAt(s, isBuy, price, id)
    requires p in s.Side(side)
    ensures Filter(s.Side(side)[p], Except({id})) == QueueAt(Remove(s, isBuy, price, id).Side(side), p)
  {
    assert QueueSound(s.Side(side)[p], p, side, s.index);
    StripsOne(s.Side(side)[p], id);
    QueueAfterRemove(s, isBuy, price, id, side, p);
    if FindId(s.Side(side)[p], id) < |s.Side(side)[p]| {
      FoundRests(s, side, p, id);
      RestingInSound(s, side, p, id);
      RestingInSound(s, isBuy, price, id);
    }
  }

  /** Removing an id from the level it rests in, or an id that rests nowhere, strips exactly that id. */
  lemma RemoveStrips(s: Book, isBuy: bool, price: int, id: int, side: bool)
    requires Sound(s) && id >= 0
    requires Resting(s, id) ==> RestingAt(s, isBuy, price, id)
    ensures Remove(s, isBuy, price, id).Side(side) == Strip(s.Side(side), {id})
  {
    var t := Remove(s, isBuy, price, id);
    RemoveKeeps(s, isBuy, price, id);
    forall p | p in t.Side(side) ensures t.Side(side)[p] != [] {
      assert QueueSound(t.Side(side)[p], p, side, t.index);
    }
    forall p | p in s.Side(side)
      ensures Filter(s.Side(side)[p], Except({id})) == QueueAt(t.Side(side), p)
    {
      RemoveStripsQueue(s, isBuy, price, id, side, p);
    }
    IsStrip(s.Side(side), {id}, t.Side(side));
  }

  // ---------- removing a list of orders ----------

  datatype Item = Item(isBuy: bool, price: int, id: OrderId)

  function RemoveAll(s: Book, items: seq<Item>): Book
    decreases |items|
  {
    if items == [] then s
    else RemoveAll(Remove(s, items[0].isBuy, items[0].price, items[0].id), items[1..])
  }

  function Ids(items: seq<Item>): set<int> {
    set i | 0 <= i < |items| :: items[i].id
  }

  /** An item names the place where its id rests, if it rests at all. */
  ghost predicate Placed(s: Book, item: Item) {
    Resting(s, item.id) ==> RestingAt(s, item.isBuy, item.price, item.id)
  }

  lemma StripOnlyRemoves(s: Book, t: Book, ids: set<int>)
    requires t.bids == Strip(s.bids, ids) && t.asks == Strip(s.asks, ids)
    ensures forall isBuy, price, id ::
              RestingAt(t, isBuy, price, id) <==> RestingAt(s, isBuy, price, id) && id !in ids
  {
    forall isBuy, price, id
      ensures RestingAt(t, isBuy, price, id) <==> RestingAt(s, isBuy, price, id) && id !in ids
    {
      if price in s.Side(isBuy) {
        var queue := s.Side(isBuy)[price];
        FilterMembers(queue, Except(ids));
        var kept := Filter(queue, Except(ids));
        if i :| 0 <= i < |queue| && queue[i].id == id && id !in ids {
          assert queue[i] in kept;
          var k :| 0 <= k < |kept| && kept[k] == queue[i];
        }
        if price in t.Side(isBuy) {
          if k :| 0 <= k < |kept| && kept[k].id == id {
            assert kept[k] in queue;
            var i :| 0 <= i < |queue| && queue[i] == kept[k];
          }
        }
      }
    }
  }

  /** Removing orders one by one, each at its place, leaves each queue without them and otherwise as it
      was, and keeps both agreements. */
  lemma {:induction false} RemoveAllStrips(s: Book, items: seq<Item>)
    requires Sound(s) && forall i | 0 <= i < |items| :: Placed(s, items[i])
    ensures var t := RemoveAll(s, items);
      && t.bids == Strip(s.bids, Ids(items))
      && t.asks == Strip(s.asks, Ids(items))
      && Sound(t)
      && (Exact(s) ==> Exact(t))
    decreases |items|
  {
    if items == [] {
      assert Ids(items) == {};
      StripNothing(s, true);
      StripNothing(s, false);
    } else {
      var Item(isBuy, price, id) := items[0];
      var u := Remove(s, isBuy, price, id);
      RemoveKeeps(s, isBuy, price, id);
      assert Placed(s, items[0]);
      RemoveStrips(s, isBuy, price, id, true);
      RemoveStrips(s, isBuy, price, id, false);
      StripOnlyRemoves(s, u, {id});
      forall i | 0 <= i < |items[1..]| ensures Placed(u, items[1..][i]) {
        assert Placed(s, items[i + 1]);
      }
      RemoveAllStrips(u, items[1..]);
      IdsOfCons(items);
      StripTwice(s.bids, {id}, Ids(items[1..]));
      StripTwice(s.asks, {id}, Ids(items[1..]));
    }
  }

  lemma IdsOfCons(items: seq<Item>)
    requires items != []
    ensures Ids(items) == {items[0].id} + Ids(items[1..])
  {
    assert items == [items[0]] + items[1..];
    assert forall i | 0 < i < |items| :: items[i] == items[1..][i - 1];
  }

  lemma StripNothing(s: Book, side: bool)
    requires Sound(s)
    ensures Strip(s.Side(side), {}) == s.Side(side)
  {
    forall p | p in s.Side(side)
      ensures Filter(s.Side(side)[p], Except({})) == s.Side(side)[p] != []
    {
      assert QueueSound(s.Side(side)[p], p, side, s.index);
      FilterAll(s.Side(side)[p], Except({}));
    }
  }

  // ---------- what is left, in priority order ----------

  function KeepOffers(offers: seq<M.Offer>, ids: set<int>): seq<M.Offer> {
    if offers == [] then []
    else if offers[0].order.id in ids then KeepOffers(offers[1..], ids)
    else [offers[0]] + KeepOffers(offers[1..], ids)
  }

  lemma {:induction false} KeepOffersOfConcat(a: seq<M.Offer>, b: seq<M.Offer>, ids: set<int>)
    ensures KeepOffers(a + b, ids) == KeepOffers(a, ids) + KeepOffers(b, ids)
  {
    if a == [] {
      assert a + b == b;
    } else {
      KeepOffersOfConcat(a[1..], b, ids);
      ConcatFront(a, b);
      Associative([a[0]], KeepOffers(a[1..], ids), KeepOffers(b, ids));
    }
  }

  lemma {:induction false} KeepOffersOfTag(price: int, queue: Queue, ids: set<int>)
    ensures KeepOffers(M.Tag(price, queue), ids) == M.Tag(price, Filter(queue, Except(ids)))
    decreases |queue|
  {
    if queue != [] {
      var front, last := queue[..|queue| - 1], queue[|queue| - 1];
      KeepOffersOfTag(price, front, ids);
      assert M.Tag(price, queue) == M.Tag(price, front) + [M.Offer(price, last)];
      KeepOffersOfConcat(M.Tag(price, front), [M.Offer(price, last)], ids);
      assert KeepOffers([M.Offer(price, last)], ids) == if last.id in ids then [] else [M.Offer(price, last)];
    }
  }

  lemma StripEmpties(isBuy: bool, levels: Levels, ids: set<int>, best: int)
    requires best in levels && Filter(levels[best], Except(ids)) == []
    ensures Strip(levels, ids) == Strip(levels - {best}, ids)
  {
  }

  lemma StripLeaves(isBuy: bool, levels: Levels, ids: set<int>, best: int)
    requires levels != map[] && best == Best(isBuy, levels) && Filter(levels[best], Except(ids)) != []
    ensures var strip := Strip(levels, ids);
      && strip != map[] && Best(isBuy, strip) == best && strip[best] == Filter(levels[best], Except(ids))
      && strip - {best} == Strip(levels - {best}, ids)
  {
    assert best in Strip(levels, ids);
  }

  lemma FlatOfSplit(isBuy: bool, levels: Levels, ids: set<int>)
    requires levels != map[]
    ensures var best := Best(isBuy, levels);
      M.Flat(isBuy, Strip(levels, ids)) ==
      M.Tag(best, Filter(levels[best], Except(ids))) + M.Flat(isBuy, Strip(levels - {best}, ids))
  {
    var best := Best(isBuy, levels);
    if Filter(levels[best], Except(ids)) == [] {
      StripEmpties(isBuy, levels, ids, best);
      assert M.Tag(best, []) == [];
    } else {
      StripLeaves(isBuy, levels, ids, best);
    }
  }

  /** Stripping a side takes the orders out of its priority order and moves no other. */
  lemma {:induction false} FlatOfStrip(isBuy: bool, levels: Levels, ids: set<int>)
    ensures M.Flat(isBuy, Strip(levels, ids)) == KeepOffers(M.Flat(isBuy, levels), ids)
    decreases |levels|
  {
    if levels == map[] {
      assert Strip(levels, ids) == map[];
    } else {
      var best := Best(isBuy, levels);
      var rest := levels - {best};
      M.FewerLevels(levels, best);
      FlatOfStrip(isBuy, rest, ids);
      KeepOffersOfConcat(M.Tag(best, levels[best]), M.Flat(isBuy, rest), ids);
      KeepOffersOfTag(best, levels[best], ids);
      FlatOfSplit(isBuy, levels, ids);
    }
  }

  lemma {:induction false} KeepOffersCount(offers: seq<M.Offer>, ids: set<int>)
    requires M.DistinctOffers(offers)
    requires forall id | id in ids :: exists i :: 0 <= i < |offers| && offers[i].order.id == id
    ensures |KeepOffers(offers, ids)| == |offers| - |ids|
  {
    if offers == [] {
      assert forall id :: id !in ids;
      assert ids == {};
    } else {
      var id := offers[0].order.id;
      var others := ids - {id};
      forall x | x in others ensures exists i :: 0 <= i < |offers[1..]| && offers[1..][i].order.id == x {
        var i :| 0 <= i < |offers| && offers[i].order.id == x;
        assert offers[1..][i - 1].order.id == x;
      }
      KeepOffersCount(offers[1..], others);
      KeepOffersIgnores(offers[1..], ids, id);
      if id in ids {
        assert |others| == |ids| - 1;
      } else {
        assert others == ids;
      }
    }
  }

  lemma {:induction false} KeepOffersIgnores(offers: seq<M.Offer>, ids: set<int>, id: int)
    requires forall i | 0 <= i < |offers| :: offers[i].order.id != id
    ensures KeepOffers(offers, ids) == KeepOffers(offers, ids - {id})
  {
    if offers != [] {
      KeepOffersIgnores(offers[1..], ids, id);
    }
  }

  /** A sound book offers no id twice. */
  lemma {:induction false} SoundIsDistinct(s: Book, isBuy: bool, levels: Levels)
    requires forall p | p in levels :: QueueSound(levels[p], p, isBuy, s.index)
    ensures M.DistinctOffers(M.Flat(isBuy, levels))
    decreases |levels|
  {
    if levels != map[] {
      var best := Best(isBuy, levels);
      var rest := levels - {best};
      M.FewerLevels(levels, best);
      SoundIsDistinct(s, isBuy, rest);
      assert QueueSound(levels[best], best, isBuy, s.index);
      var behind := M.Flat(isBuy, rest);
      forall j | 0 <= j < |behind|
        ensures behind[j].order.id in s.index && s.index[behind[j].order.id].price != best
      {
        M.FlatMembers(isBuy, rest, behind[j]);
        assert QueueSound(rest[behind[j].price], behind[j].price, isBuy, s.index);
      }
    }
  }

  // ---------- random cancellation ----------

  function Public(offers: seq<M.Offer>): seq<M.Offer> {
    if offers == [] then []
    else (if offers[0].order.isAgent then [] else [offers[0]]) + Public(offers[1..])
  }

  function ItemOf(isBuy: bool, offer: M.Offer): Item {
    Item(isBuy, offer.price, offer.order.id)
  }

  function Count(n: int, available: nat): nat {
    if n <= 0 then 0 else if n < available then n else available
  }

  ghost predicate IsPublicOffer(offers: seq<M.Offer>, isBuy: bool, item: Item) {
    exists offer :: offer in Public(offers) && item == ItemOf(isBuy, offer)
  }

  /** A sample the reservoir can end with: min(n, available) distinct public orders of the side. */
  ghost predicate IsSample(offers: seq<M.Offer>, isBuy: bool, n: int, sample: seq<Item>) {
    && |sample| == Count(n, |Public(offers)|)
    && (forall i | 0 <= i < |sample| :: IsPublicOffer(offers, isBuy, sample[i]))
    && (forall i, j | 0 <= i < j < |sample| :: sample[i].id != sample[j].id)
  }

  ghost predicate ValidSample(s: Book, isBuy: bool, n: int, sample: seq<Item>) {
    IsSample(M.Flat(isBuy, s.Side(isBuy)), isBuy, n, sample)
  }

  // The reservoir after one more offer: unchanged, extended, or with one of its places replaced.

  lemma {:induction false} PublicOfSnoc(offers: seq<M.Offer>, offer: M.Offer)
    ensures Public(offers + [offer]) == Public(offers) + (if offer.order.isAgent then [] else [offer])
  {
    if offers == [] {
      assert [] + [offer] == [offer] && [offer][1..] == [];
    } else {
      PublicOfSnoc(offers[1..], offer);
      assert (offers + [offer])[1..] == offers[1..] + [offer];
    }
  }

  lemma StillPublic(met: seq<M.Offer>, offer: M.Offer, isBuy: bool, item: Item)
    requires IsPublicOffer(met, isBuy, item)
    ensures IsPublicOffer(met + [offer], isBuy, item)
  {
    PublicOfSnoc(met, offer);
    var o :| o in Public(met) && item == ItemOf(isBuy, o);
    assert o in Public(met + [offer]);
  }

  lemma SampleIsMet(met: seq<M.Offer>, isBuy: bool, n: int, sample: seq<Item>, i: nat, offer: M.Offer)
    requires IsSample(met, isBuy, n, sample) && i < |sample|
    requires forall k | 0 <= k < |met| :: met[k].order.id != offer.order.id
    ensures sample[i].id != offer.order.id
  {
    assert IsPublicOffer(met, isBuy, sample[i]);
    var o :| o in Public(met) && sample[i] == ItemOf(isBuy, o);
    PublicMembers(met, o);
  }

  lemma SampleStays(met: seq<M.Offer>, offer: M.Offer, isBuy: bool, n: int, sample: seq<Item>)
    requires IsSample(met, isBuy, n, sample) && (offer.order.isAgent || |sample| == n)
    ensures IsSample(met + [offer], isBuy, n, sample)
  {
    PublicOfSnoc(met, offer);
    forall i | 0 <= i < |sample| ensures IsPublicOffer(met + [offer], isBuy, sample[i]) {
      StillPublic(met, offer, isBuy, sample[i]);
    }
  }

  lemma SampleGrows(met: seq<M.Offer>, offer: M.Offer, isBuy: bool, n: int, sample: seq<Item>)
    requires IsSample(met, isBuy, n, sample) && !offer.order.isAgent && |sample| < n
    requires forall k | 0 <= k < |met| :: met[k].order.id != offer.order.id
    ensures IsSample(met + [offer], isBuy, n, sample + [ItemOf(isBuy, offer)])
  {
    PublicOfSnoc(met, offer);
    assert offer in Public(met + [offer]);
    forall i | 0 <= i < |sample|
      ensures IsPublicOffer(met + [offer], isBuy, sample[i]) && sample[i].id != offer.order.id
    {
      StillPublic(met, offer, isBuy, sample[i]);
      SampleIsMet(met, isBuy, n, sample, i, offer);
    }
  }

  lemma SampleReplaces(met: seq<M.Offer>, offer: M.Offer, isBuy: bool, n: int, sample: seq<Item>, draw: nat)
    requires IsSample(met, isBuy, n, sample) && !offer.order.isAgent && |sample| == n && draw < n
    requires forall k | 0 <= k < |met| :: met[k].order.id != offer.order.id
    ensures IsSample(met + [offer], isBuy, n, sample[draw := ItemOf(isBuy, offer)])
  {
    PublicOfSnoc(met, offer);
    assert offer in Public(met + [offer]);
    forall i | 0 <= i < |sample|
      ensures IsPublicOffer(met + [offer], isBuy, sample[i]) && sample[i].id != offer.order.id
    {
      StillPublic(met, offer, isBuy, sample[i]);
      SampleIsMet(met, isBuy, n, sample, i, offer);
    }
  }

  /** The public orders at these places. */
  function ItemsAt(isBuy: bool, public: seq<M.Offer>, places: seq<nat>): (items: seq<Item>)
    requires forall i | 0 <= i < |places| :: places[i] < |public|
    ensures |items| == |places| && forall i | 0 <= i < |items| :: items[i] == ItemOf(isBuy, public[places[i]])
  {
    seq(|places|, i requires 0 <= i < |places| => ItemOf(isBuy, public[places[i]]))
  }

  /** The sample is what these draws make of the public orders met; one draw for each beyond the n-th. */
  ghost predicate Drawn(met: seq<M.Offer>, isBuy: bool, n: nat, sample: seq<Item>, draws: seq<nat>) {
    DrawnFrom(Public(met), isBuy, n, sample, draws)
  }

  ghost predicate DrawnFrom(public: seq<M.Offer>, isBuy: bool, n: nat, sample: seq<Item>, draws: seq<nat>) {
    && |draws| == (if |public| <= n then 0 else |public| - n)
    && V.InRange(n, draws)
    && sample == ItemsAt(isBuy, public, V.Held(n, |public|, draws))
  }

  lemma DrawnGrows(public: seq<M.Offer>, offer: M.Offer, isBuy: bool, n: nat, sample: seq<Item>, draws: seq<nat>)
    requires DrawnFrom(public, isBuy, n, sample, draws) && |sample| < n
    ensures DrawnFrom(public + [offer], isBuy, n, sample + [ItemOf(isBuy, offer)], draws)
  {
  }

  lemma ItemsReplaced(public: seq<M.Offer>, offer: M.Offer, isBuy: bool, n: nat, held: seq<nat>, draw: nat)
    requires |held| == n && forall i | 0 <= i < n :: held[i] < |public|
    ensures forall i | 0 <= i < n :: V.Replace(held, n, |public|, draw)[i] < |public + [offer]|
    ensures ItemsAt(isBuy, public + [offer], V.Replace(held, n, |public|, draw)) ==
      if draw < n then ItemsAt(isBuy, public, held)[draw := ItemOf(isBuy, offer)] else ItemsAt(isBuy, public, held)
  {
  }

  lemma DrawnReplaces(public: seq<M.Offer>, offer: M.Offer, isBuy: bool, n: nat, sample: seq<Item>, draws: seq<nat>, draw: nat)
    requires DrawnFrom(public, isBuy, n, sample, draws) && |sample| == n && draw < V.Among(n, |public|)
    ensures DrawnFrom(public + [offer], isBuy, n,
              if draw < n then sample[draw := ItemOf(isBuy, offer)] else sample, draws + [draw])
  {
    V.HeldNext(n, |public|, draws, draw);
    V.InRangeNext(n, |public|, draws, draw);
    ItemsReplaced(public, offer, isBuy, n, V.Held(n, |public|, draws), draw);
  }

  /** The reservoir after the first k offers. */
  ghost predicate Sampling(offers: seq<M.Offer>, isBuy: bool, n: int, k: nat, sample: seq<Item>, seen: int, draws: seq<nat>) {
    k <= |offers| && 0 < n && |sample| <= n && seen >= |sample| &&
    forall x {:trigger Open(x, k)} :: Open(x, k) ==>
      && M.DistinctOffers(offers)
      && IsSample(offers[..k], isBuy, n, sample)
      && Drawn(offers[..k], isBuy, n, sample, draws)
      && seen == V.Seen(n, |Public(offers[..k])|)
  }

  lemma SamplingStart(offers: seq<M.Offer>, isBuy: bool, n: int)
    requires M.DistinctOffers(offers) && n > 0
    ensures Sampling(offers, isBuy, n, 0, [], 0, [])
  {
    assert offers[..0] == [];
  }

  lemma PrefixNext(offers: seq<M.Offer>, k: nat)
    requires k < |offers|
    ensures offers[..k + 1] == offers[..k] + [offers[k]]
    ensures Public(offers[..k + 1]) == Public(offers[..k]) + (if offers[k].order.isAgent then [] else [offers[k]])
  {
    assert offers[..k + 1] == offers[..k] + [offers[k]];
    PublicOfSnoc(offers[..k], offers[k]);
  }

  lemma SamplingPasses(offers: seq<M.Offer>, isBuy: bool, n: int, k: nat, sample: seq<Item>, seen: int, draws: seq<nat>)
    requires Sampling(offers, isBuy, n, k, sample, seen, draws) && k < |offers| && offers[k].order.isAgent
    ensures Sampling(offers, isBuy, n, k + 1, sample, seen, draws)
  {
    assert Open(0, k);
    PrefixNext(offers, k);
    SampleStays(offers[..k], offers[k], isBuy, n, sample);
  }

  lemma SamplingGrows(offers: seq<M.Offer>, isBuy: bool, n: int, k: nat, sample: seq<Item>, seen: int, draws: seq<nat>)
    requires Sampling(offers, isBuy, n, k, sample, seen, draws) && k < |offers|
    requires !offers[k].order.isAgent && |sample| < n
    ensures Sampling(offers, isBuy, n, k + 1, sample + [ItemOf(isBuy, offers[k])], seen + 1, draws)
  {
    assert Open(0, k);
    PrefixNext(offers, k);
    SampleGrows(offers[..k], offers[k], isBuy, n, sample);
    DrawnGrows(Public(offers[..k]), offers[k], isBuy, n, sample, draws);
  }

  lemma SamplingDraws(offers: seq<M.Offer>, isBuy: bool, n: int, k: nat, sample: seq<Item>, seen: int, draws: seq<nat>, draw: nat)
    requires Sampling(offers, isBuy, n, k, sample, seen, draws) && k < |offers| && draw <= seen + 1
    requires !offers[k].order.isAgent && |sample| == n
    ensures Sampling(offers, isBuy, n, k + 1,
              if draw < n then sample[draw := ItemOf(isBuy, offers[k])] else sample, seen + 2, draws + [draw])
  {
    assert Open(0, k);
    PrefixNext(offers, k);
    if draw < n {
      SampleReplaces(offers[..k], offers[k], isBuy, n, sample, draw);
    } else {
      SampleStays(offers[..k], offers[k], isBuy, n, sample);
    }
    DrawnReplaces(Public(offers[..k]), offers[k], isBuy, n, sample, draws, draw);
  }

  /** What an offer makes of the sample, of the orders counted and of the draws made: one that is met when the
      reservoir is full is counted before its draw and again after it. */
  lemma SamplingStep(offers: seq<M.Offer>, isBuy: bool, n: int, k: nat, sample: seq<Item>, seen: int, draws: seq<nat>, draw: int,
      after: seq<Item>, seenAfter: int, drawsAfter: seq<nat>)
    requires Sampling(offers, isBuy, n, k, sample, seen, draws) && k < |offers| && 0 <= draw <= seen + 1
    requires after ==
      if offers[k].order.isAgent then sample
      else if |sample| < n then sample + [ItemOf(isBuy, offers[k])]
      else if draw < n then sample[draw := ItemOf(isBuy, offers[k])] else sample
    requires seenAfter == seen + if offers[k].order.isAgent then 0 else if |sample| < n then 1 else 2
    requires drawsAfter == if offers[k].order.isAgent || |sample| < n then draws else draws + [draw]
    ensures Sampling(offers, isBuy, n, k + 1, after, seenAfter, drawsAfter)
  {
    if offers[k].order.isAgent {
      SamplingPasses(offers, isBuy, n, k, sample, seen, draws);
    } else if |sample| < n {
      SamplingGrows(offers, isBuy, n, k, sample, seen, draws);
    } else {
      SamplingDraws(offers, isBuy, n, k, sample, seen, draws, draw);
    }
  }

  lemma SamplingEnd(offers: seq<M.Offer>, isBuy: bool, n: int, sample: seq<Item>, seen: int, draws: seq<nat>)
    requires Sampling(offers, isBuy, n, |offers|, sample, seen, draws)
    ensures IsSample(offers, isBuy, n, sample) && Drawn(offers, isBuy, n, sample, draws)
  {
    assert Open(0, |offers|);
    assert offers[..|offers|] == offers;
  }

  /** Every sample that draws in range can make is one the cancellation can meet. */
  lemma DrawnIsSample(offers: seq<M.Offer>, isBuy: bool, n: nat, sample: seq<Item>, draws: seq<nat>)
    requires M.DistinctOffers(offers) && n > 0 && Drawn(offers, isBuy, n, sample, draws)
    ensures IsSample(offers, isBuy, n, sample)
  {
    var public := Public(offers);
    var held := V.Held(n, |public|, draws);
    V.HeldAreDistinct(n, |public|, draws);
    PublicIsDistinct(offers);
    forall i | 0 <= i < |sample| ensures IsPublicOffer(offers, isBuy, sample[i]) {
      assert public[held[i]] in public;
    }
    forall i, j | 0 <= i < j < |sample| ensures sample[i].id != sample[j].id {
      assert held[i] != held[j];
      assert public[held[i]].order.id != public[held[j]].order.id;
    }
  }

  lemma {:induction false} PublicIsDistinct(offers: seq<M.Offer>)
    requires M.DistinctOffers(offers)
    ensures M.DistinctOffers(Public(offers))
  {
    if offers != [] {
      PublicIsDistinct(offers[1..]);
      var behind := Public(offers[1..]);
      forall j | 0 <= j < |behind| ensures behind[j].order.id != offers[0].order.id {
        assert behind[j] in behind;
        PublicMembers(offers[1..], behind[j]);
      }
    }
  }

  lemma SideIsDistinct(s: Book, isBuy: bool)
    requires Sound(s)
    ensures M.DistinctOffers(M.Flat(isBuy, s.Side(isBuy)))
  {
    SoundIsDistinct(s, isBuy, s.Side(isBuy));
  }

  lemma {:induction false} PublicMembers(offers: seq<M.Offer>, offer: M.Offer)
    ensures offer in Public(offers) <==> offer in offers && !offer.order.isAgent
  {
    if offers != [] {
      PublicMembers(offers[1..], offer);
      assert offers == [offers[0]] + offers[1..];
    }
  }

  lemma {:induction false} DistinctIds(sample: seq<Item>)
    requires forall i, j | 0 <= i < j < |sample| :: sample[i].id != sample[j].id
    ensures |Ids(sample)| == |sample|
  {
    if sample == [] {
      assert Ids(sample) == {};
    } else {
      DistinctIds(sample[1..]);
      IdsOfCons(sample);
      assert sample[0].id !in Ids(sample[1..]);
    }
  }

  lemma OfferRests(s: Book, isBuy: bool, offer: M.Offer)
    requires offer in M.Flat(isBuy, s.Side(isBuy))
    ensures RestingAt(s, isBuy, offer.price, offer.order.id)
  {
    M.FlatMembers(isBuy, s.Side(isBuy), offer);
    var queue := s.Side(isBuy)[offer.price];
    var j :| 0 <= j < |queue| && queue[j] == offer.order;
  }

  lemma SampleRests(s: Book, isBuy: bool, n: int, sample: seq<Item>, i: nat)
    requires Sound(s) && ValidSample(s, isBuy, n, sample) && i < |sample|
    ensures sample[i].isBuy == isBuy && RestingAt(s, isBuy, sample[i].price, sample[i].id)
    ensures var before := M.Flat(isBuy, s.Side(isBuy));
      exists k :: 0 <= k < |before| && before[k].order.id == sample[i].id && !before[k].order.isAgent
  {
    var before := M.Flat(isBuy, s.Side(isBuy));
    assert IsPublicOffer(before, isBuy, sample[i]);
    var offer :| offer in Public(before) && sample[i] == ItemOf(isBuy, offer);
    PublicMembers(before, offer);
    OfferRests(s, isBuy, offer);
    var k :| 0 <= k < |before| && before[k] == offer;
  }

  /** Exactly min(n, public orders) orders leave the given side; every other order of the book stays in its
      place in the queue, and both agreements are kept. */
  lemma CancelEffect(s: Book, isBuy: bool, n: int, sample: seq<Item>)
    requires Sound(s) && ValidSample(s, isBuy, n, sample)
    ensures var t := RemoveAll(s, sample);
      var before := M.Flat(isBuy, s.Side(isBuy));
      && M.Flat(isBuy, t.Side(isBuy)) == KeepOffers(before, Ids(sample))
      && |M.Flat(isBuy, t.Side(isBuy))| ==
           |before| - (if n <= 0 then 0 else if n < |Public(before)| then n else |Public(before)|)
      && t.Side(!isBuy) == s.Side(!isBuy)
      && Sound(t)
      && (Exact(s) ==> Exact(t))
  {
    SoundIsDistinct(s, isBuy, s.Side(isBuy));
    forall i | 0 <= i < |sample|
      ensures Placed(s, sample[i]) && sample[i].isBuy == isBuy
    {
      SampleRests(s, isBuy, n, sample, i);
    }
    RemoveAllStrips(s, sample);
    FlatOfStrip(isBuy, s.Side(isBuy), Ids(sample));
    OtherSideUntouched(s, isBuy, sample);
    forall id | id in Ids(sample)
      ensures exists k :: 0 <= k < |M.Flat(isBuy, s.Side(isBuy))| && M.Flat(isBuy, s.Side(isBuy))[k].order.id == id
    {
      var i :| 0 <= i < |sample| && sample[i].id == id;
      SampleRests(s, isBuy, n, sample, i);
    }
    DistinctIds(sample);
    KeepOffersCount(M.Flat(isBuy, s.Side(isBuy)), Ids(sample));
  }

  /** No agent order is ever among the cancelled ones. */
  lemma CancelSparesAgents(s: Book, isBuy: bool, n: int, sample: seq<Item>, offer: M.Offer)
    requires Sound(s) && ValidSample(s, isBuy, n, sample)
    requires offer in M.Flat(isBuy, s.Side(isBuy)) && offer.order.isAgent
    ensures offer in M.Flat(isBuy, RemoveAll(s, sample).Side(isBuy))
  {
    var before := M.Flat(isBuy, s.Side(isBuy));
    SoundIsDistinct(s, isBuy, s.Side(isBuy));
    var k' :| 0 <= k' < |before| && before[k'] == offer;
    forall i | 0 <= i < |sample| ensures sample[i].id != offer.order.id {
      SampleRests(s, isBuy, n, sample, i);
      var k :| 0 <= k < |before| && before[k].order.id == sample[i].id && !before[k].order.isAgent;
      assert k != k';
    }
    CancelEffect(s, isBuy, n, sample);
    KeepOffersMembers(before, Ids(sample), offer);
  }

  lemma {:induction false} KeepOffersMembers(offers: seq<M.Offer>, ids: set<int>, offer: M.Offer)
    ensures offer in KeepOffers(offers, ids) <==> offer in offers && offer.order.id !in ids
  {
    if offers != [] {
      KeepOffersMembers(offers[1..], ids, offer);
      assert offers == [offers[0]] + offers[1..];
    }
  }

  lemma {:induction false} OtherSideUntouched(s: Book, isBuy: bool, items: seq<Item>)
    requires forall i | 0 <= i < |items| :: items[i].isBuy == isBuy
    ensures RemoveAll(s, items).Side(!isBuy) == s.Side(!isBuy)
    decreases |items|
  {
    if items != [] {
      OtherSideUntouched(Remove(s, items[0].isBuy, items[0].price, items[0].id), isBuy, items[1..]);
    }
  }

  // ---------- pruning ----------

  function Younger(now: int, maxAge: int): Order -> bool {
    (o: Order) => now - o.timestamp < maxAge
  }

  /** `prune_stale_orders`: old orders go, the index is left alone. */
  function Prune(s: Book, now: int, maxAge: int): Book {
    s.(bids := FilterLevels(s.bids, Younger(now, maxAge)), asks := FilterLevels(s.asks, Younger(now, maxAge)))
  }

  /** An order rests after pruning exactly if it rested before, at the same place, and is younger than the bound. */
  lemma PruneByAge(s: Book, now: int, maxAge: int, side: bool, p: int, o: Order)
    ensures o in QueueAt(Prune(s, now, maxAge).Side(side), p) <==>
      o in QueueAt(s.Side(side), p) && now - o.timestamp < maxAge
  {
    FilterMembers(QueueAt(s.Side(side), p), Younger(now, maxAge));
  }

  lemma PruneKeepsSide(s: Book, now: int, maxAge: int, side: bool)
    requires SideSound(s, side)
    ensures SideSound(Prune(s, now, maxAge), side)
  {
    var t := Prune(s, now, maxAge);
    var keep := Younger(now, maxAge);
    forall p | p in t.Side(side) ensures QueueSound(t.Side(side)[p], p, side, t.index) {
      var queue := s.Side(side)[p];
      assert QueueSound(queue, p, side, s.index);
      var kept := Filter(queue, keep);
      FilterKeepsDistinct(queue, keep);
      forall k | 0 <= k < |kept|
        ensures kept[k].id in t.index
        ensures t.index[kept[k].id].price == p && t.index[kept[k].id].isBuy == side
        ensures t.index[kept[k].id].position >= k
      {
        FilterKeepsOrder(queue, keep, k);
        var j :| k <= j < |queue| && 0 <= j && queue[j] == kept[k];
      }
    }
  }

  /** Pruning keeps every resting order indexed at its price and side, at or above its position. */
  lemma PruneKeeps(s: Book, now: int, maxAge: int)
    requires Sound(s)
    ensures Sound(Prune(s, now, maxAge))
  {
    PruneKeepsSide(s, now, maxAge, true);
    PruneKeepsSide(s, now, maxAge, false);
  }
}
