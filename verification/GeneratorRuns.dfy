/** Which tracked orders rest: all of them while the generator only adds and cancels, and, when one of its
    takers comes, exactly those the sweep does not meet. */
module GeneratorRuns {
  import opened BookState
  import opened Generators
  import B = BookState
  import M = Market
  import R = Removal
  import Runs
  import T = Ttl

  // ---------- adding and cancelling ----------

  /** Tracked and resting are the same, place by place. */
  ghost predicate Mirrors(w: World) {
    forall isBuy, price, id :: ListedAt(w.pools.Side(isBuy), price, id) <==> RestingAt(w.book, isBuy, price, id)
  }

  lemma AddRests(s: Book, isBuy: bool, price: int, order: Order, side: bool, p: int, id: int)
    ensures RestingAt(B.Add(s, isBuy, price, order), side, p, id) <==>
      RestingAt(s, side, p, id) || (side == isBuy && p == price && id == order.id)
  {
    var t, queue := B.Add(s, isBuy, price, order), QueueAt(s.Side(isBuy), price);
    if RestingAt(s, side, p, id) {
      var j :| 0 <= j < |s.Side(side)[p]| && s.Side(side)[p][j].id == id;
      assert t.Side(side)[p][j].id == id;
    }
    if side == isBuy && p == price && id == order.id {
      assert t.Side(side)[p][|queue|].id == id;
    }
    if RestingAt(t, side, p, id) {
      var j :| 0 <= j < |t.Side(side)[p]| && t.Side(side)[p][j].id == id;
      assert p in s.Side(side) && j < |s.Side(side)[p]| ==> s.Side(side)[p][j].id == id;
    }
  }

  lemma RemoveRests(s: Book, isBuy: bool, price: int, gone: int, side: bool, p: int, id: int)
    requires Sound(s) && gone >= 0 && (Resting(s, gone) ==> RestingAt(s, isBuy, price, gone))
    ensures RestingAt(B.Remove(s, isBuy, price, gone), side, p, id) <==> RestingAt(s, side, p, id) && id != gone
  {
    R.RemoveStrips(s, isBuy, price, gone, side);
    var t := B.Remove(s, isBuy, price, gone);
    if p in s.Side(side) {
      var queue := s.Side(side)[p];
      var kept := R.Filter(queue, R.Except({gone}));
      StrippedQueue(queue, gone, id);
      assert RestingAt(s, side, p, id) <==> HasId(queue, id);
      assert RestingAt(t, side, p, id) <==> HasId(kept, id);
      assert p in t.Side(side) <==> kept != [];
      assert p in t.Side(side) ==> t.Side(side)[p] == kept;
    }
  }

  ghost predicate HasId(queue: Queue, id: int) {
    exists j :: 0 <= j < |queue| && queue[j].id == id
  }

  lemma StrippedQueue(queue: Queue, gone: int, id: int)
    ensures HasId(R.Filter(queue, R.Except({gone})), id) <==> id != gone && HasId(queue, id)
  {
    var keep := R.Except({gone});
    var kept := R.Filter(queue, keep);
    R.FilterMembers(queue, keep);
    if HasId(kept, id) {
      var j :| 0 <= j < |kept| && kept[j].id == id;
      assert kept[j] in kept;
      var i :| 0 <= i < |queue| && queue[i] == kept[j];
    }
    if id != gone && HasId(queue, id) {
      var j :| 0 <= j < |queue| && queue[j].id == id;
      assert keep(queue[j]) && queue[j] in queue;
      var i :| 0 <= i < |kept| && kept[i] == queue[j];
    }
  }

  predicate OwnQuiet(e: Event) {
    e.EmitLimit? || e.EmitCancel?
  }

  lemma QuietKeepsMirror(bound: int, w: World, e: Event)
    requires Consistent(bound, w) && Mirrors(w) && w.pools.nextId <= bound && Legal(bound, w, e) && OwnQuiet(e)
    ensures Mirrors(Apply(w, e))
  {
    var v := Apply(w, e);
    forall isBuy, price, id
      ensures ListedAt(v.pools.Side(isBuy), price, id) <==> RestingAt(v.book, isBuy, price, id)
    {
      assert ListedAt(w.pools.Side(isBuy), price, id) <==> RestingAt(w.book, isBuy, price, id);
      match e
      case EmitLimit(side, p, size, timestamp) =>
        FreshIdRestsNowhere(bound, w);
        TrackKeeps(w.pools.Side(side), w.pools.nextId, p);
        AddRests(w.book, side, p, Order(w.pools.nextId, size, true, timestamp, 0), isBuy, price, id);
      case EmitCancel(side, p, place) =>
        var gone := w.pools.Side(side).byPrice[p][place];
        assert ListedAt(w.pools.Side(side), p, gone) && gone in w.pools.Side(side).ids;
        assert RestingAt(w.book, side, p, gone);
        UntrackKeeps(w.pools.Side(side), gone, p);
        OtherSideLacks(w.pools, side, gone, isBuy, price);
        RemoveRests(w.book, side, p, gone, isBuy, price, id);
      case _ =>
    }
  }

  lemma OtherSideLacks(pools: Pools, side: bool, id: int, other: bool, price: int)
    requires Tidy(pools) && id in pools.Side(side).ids
    ensures other != side ==> !ListedAt(pools.Side(other), price, id)
  {
    assert ListedAt(pools.Side(other), price, id) ==> id in pools.Side(other).ids;
  }

  /** From an empty book, as long as the generator only adds and cancels, whatever is drawn: every tracked order
      rests and every resting order is tracked, at the same side and price. */
  lemma {:induction false} QuietRunMirrors(bound: int, w: World, events: seq<Event>)
    requires Consistent(bound, w) && Mirrors(w) && w.pools.nextId <= bound && LegalRun(bound, w, events)
    requires forall i | 0 <= i < |events| :: OwnQuiet(events[i])
    ensures Mirrors(Run(bound, w, events))
    decreases |events|
  {
    if events != [] {
      EventKeeps(bound, w, events[0]);
      QuietKeepsMirror(bound, w, events[0]);
      QuietRunMirrors(bound, Apply(w, events[0]), events[1..]);
    }
  }

  lemma EmptyMirrors()
    ensures Mirrors(World(EMPTY, FRESH))
  {
  }

  // ---------- generator orders are the agent's ----------

  ghost predicate RestsAs(s: Book, isBuy: bool, price: int, id: int, agent: bool) {
    && price in s.Side(isBuy)
    && exists j :: 0 <= j < |s.Side(isBuy)[price]|
         && s.Side(isBuy)[price][j].id == id && s.Side(isBuy)[price][j].isAgent == agent
  }

  lemma AgedAs(queue: Queue, id: int, agent: bool) returns (i: nat)
    requires exists o :: o in R.Filter(queue, T.Unexpired()) && T.Aged(o).id == id && T.Aged(o).isAgent == agent
    ensures i < |queue| && queue[i].id == id && queue[i].isAgent == agent
  {
    R.FilterMembers(queue, T.Unexpired());
    var o :| o in R.Filter(queue, T.Unexpired()) && T.Aged(o).id == id && T.Aged(o).isAgent == agent;
    i :| 0 <= i < |queue| && queue[i] == o;
  }

  lemma DecayedAs(s: Book, isBuy: bool, price: int, id: int, agent: bool)
    requires Sound(s) && RestsAs(T.Decay(s), isBuy, price, id, agent)
    ensures RestsAs(s, isBuy, price, id, agent)
  {
    T.DecayEffect(s);
    assert T.Decay(s).Side(isBuy) == T.Survivors(s.Side(isBuy));
    var kept := R.Filter(s.Side(isBuy)[price], T.Unexpired());
    var j :| 0 <= j < |kept| && T.Aged(kept[j]).id == id && T.Aged(kept[j]).isAgent == agent;
    assert kept[j] in kept;
    var i := AgedAs(s.Side(isBuy)[price], id, agent);
  }

  lemma AddedAs(s: Book, side: bool, p: int, order: Order, postOnly: bool, isBuy: bool, price: int, id: int, agent: bool)
    requires RestsAs(Runs.Accept(s, side, p, order, postOnly), isBuy, price, id, agent)
    ensures RestsAs(s, isBuy, price, id, agent) || (order.id == id && order.isAgent == agent)
  {
    var t := Runs.Accept(s, side, p, order, postOnly);
    var queue := QueueAt(s.Side(isBuy), price);
    var j :| 0 <= j < |t.Side(isBuy)[price]| &&
      t.Side(isBuy)[price][j].id == id && t.Side(isBuy)[price][j].isAgent == agent;
    assert j < |queue| ==> s.Side(isBuy)[price][j] == t.Side(isBuy)[price][j];
  }

  lemma SetAs(s: Book, order: int, ttl: int, isBuy: bool, price: int, id: int, agent: bool)
    requires RestsAs(T.SetTtl(s, order, ttl), isBuy, price, id, agent)
    ensures RestsAs(s, isBuy, price, id, agent)
  {
    var t := T.SetTtl(s, order, ttl);
    var j :| 0 <= j < |t.Side(isBuy)[price]| &&
      t.Side(isBuy)[price][j].id == id && t.Side(isBuy)[price][j].isAgent == agent;
    assert s.Side(isBuy)[price][j].id == id && s.Side(isBuy)[price][j].isAgent == agent;
  }

  lemma ShrunkAs(s: Book, t: Book, isBuy: bool, price: int, id: int, agent: bool)
    requires Runs.Shrinks(s, t) && RestsAs(t, isBuy, price, id, agent)
    ensures RestsAs(s, isBuy, price, id, agent)
  {
    var j :| 0 <= j < |t.Side(isBuy)[price]| &&
      t.Side(isBuy)[price][j].id == id && t.Side(isBuy)[price][j].isAgent == agent;
    assert Runs.AllHeld(s.Side(isBuy)[price], t.Side(isBuy)[price]);
    assert Runs.Holds(s.Side(isBuy)[price], t.Side(isBuy)[price][j]);
  }

  /** No operation changes whose order an order is. */
  lemma RestedAsBefore(s: Book, op: Runs.Op, isBuy: bool, price: int, id: int, agent: bool)
    requires Sound(s) && Runs.Legal(s, op) && RestsAs(Runs.Apply(s, op), isBuy, price, id, agent)
    ensures RestsAs(s, isBuy, price, id, agent) || (op.Add? && op.order.id == id && op.order.isAgent == agent)
  {
    match op
    case Add(side, p, order, postOnly) => AddedAs(s, side, p, order, postOnly, isBuy, price, id, agent);
    case SetTtl(order, ttl) => SetAs(s, order, ttl, isBuy, price, id, agent);
    case Decay => DecayedAs(s, isBuy, price, id, agent);
    case _ =>
      Runs.StepShrinks(s, op);
      ShrunkAs(s, Runs.Apply(s, op), isBuy, price, id, agent);
  }

  ghost predicate AgentsOwn(bound: int, s: Book) {
    forall isBuy, price, id | IsGenerators(bound, id) :: !RestsAs(s, isBuy, price, id, false)
  }

  lemma EventKeepsOwner(bound: int, w: World, e: Event)
    requires Consistent(bound, w) && w.pools.nextId <= bound && Legal(bound, w, e) && AgentsOwn(bound, w.book)
    ensures AgentsOwn(bound, Apply(w, e).book)
  {
    if e.EmitLimit? {
      FreshIdRestsNowhere(bound, w);
    }
    forall isBuy, price, id | IsGenerators(bound, id) ensures !RestsAs(Apply(w, e).book, isBuy, price, id, false) {
      if RestsAs(Apply(w, e).book, isBuy, price, id, false) {
        RestedAsBefore(w.book, OpOf(w.pools, e), isBuy, price, id, false);
      }
    }
  }

  /** Over any run with any operations of others, a resting generator order is an agent order. */
  lemma {:induction false} RunKeepsOwner(bound: int, w: World, events: seq<Event>)
    requires Consistent(bound, w) && w.pools.nextId <= bound && LegalRun(bound, w, events) && AgentsOwn(bound, w.book)
    ensures AgentsOwn(bound, Run(bound, w, events).book)
    decreases |events|
  {
    if events != [] {
      EventKeeps(bound, w, events[0]);
      EventKeepsOwner(bound, w, events[0]);
      RunKeepsOwner(bound, Apply(w, events[0]), events[1..]);
    }
  }

  // ---------- the generator's own takers ----------

  lemma OfferedIsResting(s: Book, side: bool, offers: seq<M.Offer>, id: int)
    requires offers == M.Flat(side, s.Side(side))
    ensures M.Offers(offers, id) <==> exists price :: RestingAt(s, side, price, id)
  {
    if M.Offers(offers, id) {
      var i :| 0 <= i < |offers| && offers[i].order.id == id;
      assert offers[i] in offers;
      M.FlatMembers(side, s.Side(side), offers[i]);
      assert RestingAt(s, side, offers[i].price, id);
    }
    if price :| RestingAt(s, side, price, id) {
      var j :| 0 <= j < |s.Side(side)[price]| && s.Side(side)[price][j].id == id;
      M.FlatMembers(side, s.Side(side), M.Offer(price, s.Side(side)[price][j]));
      assert M.Offer(price, s.Side(side)[price][j]) in offers;
    }
  }

  /** A generator order on the side hit by a generator taker leaves the book exactly if the sweep meets it; on
      the other side it stays. It stays tracked either way. */
  lemma MarketTakesExactly(bound: int, w: World, isBuy: bool, size: real, k: nat)
    requires Consistent(bound, w) && AgentsOwn(bound, w.book)
    requires var offers := M.Flat(!isBuy, w.book.Side(!isBuy));
      k < |offers| && IsGenerators(bound, offers[k].order.id)
    ensures var offers := M.Flat(!isBuy, w.book.Side(!isBuy));
      var v := Apply(w, EmitMarket(isBuy, size));
      && (Resting(v.book, offers[k].order.id) <==> !M.Meets(offers, size, k))
      && ListedAt(v.pools.Side(!isBuy), offers[k].price, offers[k].order.id)
    ensures Apply(w, EmitMarket(isBuy, size)).book.Side(isBuy) == w.book.Side(isBuy)
  {
    var hit, v := !isBuy, Apply(w, EmitMarket(isBuy, size));
    var offers := M.Flat(hit, w.book.Side(hit));
    var id, price := offers[k].order.id, offers[k].price;
    M.WalkIsGreedy(w.book, hit, size, true);
    assert v.book.Side(!hit) == w.book.Side(!hit);
    OfferRestsAsAgent(bound, w, hit, offers, k);
    R.SideIsDistinct(w.book, hit);
    M.DeletesExactlyWhatItMeets(offers, size, k);
    OfferedIsResting(v.book, hit, M.Flat(hit, v.book.Side(hit)), id);
    forall p ensures !RestingAt(v.book, isBuy, p, id) {
      OnOneSideOnly(w.book, hit, price, isBuy, p, id);
      assert v.book.Side(isBuy) == w.book.Side(isBuy);
    }
  }

  lemma OnOneSideOnly(s: Book, side: bool, price: int, other: bool, p: int, id: int)
    requires Sound(s) && RestingAt(s, side, price, id) && other != side
    ensures !RestingAt(s, other, p, id)
  {
    if RestingAt(s, other, p, id) {
      RestingInSound(s, side, price, id);
      RestingInSound(s, other, p, id);
    }
  }

  lemma OfferRestsAsAgent(bound: int, w: World, hit: bool, offers: seq<M.Offer>, k: nat)
    requires Consistent(bound, w) && AgentsOwn(bound, w.book) && offers == M.Flat(hit, w.book.Side(hit))
    requires k < |offers| && IsGenerators(bound, offers[k].order.id)
    ensures RestingAt(w.book, hit, offers[k].price, offers[k].order.id) && offers[k].order.isAgent
    ensures ListedAt(w.pools.Side(hit), offers[k].price, offers[k].order.id)
  {
    assert offers[k] in offers;
    M.FlatMembers(hit, w.book.Side(hit), offers[k]);
    assert !RestsAs(w.book, hit, offers[k].price, offers[k].order.id, false);
  }
}
