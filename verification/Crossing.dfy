/** When a new order crosses the book, and which runs keep every bid below every ask. */
module Crossing {
  import opened KeyOrder
  import opened BookState
  import B = BookState
  import L = Limit
  import M = Market
  import T = Ttl
  import Runs

  // ---------- crossing ----------

  ghost predicate Occupied(levels: Levels) {
    forall p | p in levels :: levels[p] != []
  }

  ghost predicate OffersWithin(levels: Levels, isBuy: bool, price: int) {
    exists p :: p in levels && levels[p] != [] && (if isBuy then p <= price else p >= price)
  }

  /** Some order of the other side is priced within the limit of the new one. */
  ghost predicate MeetsSome(s: Book, isBuy: bool, price: int) {
    OffersWithin(s.Side(!isBuy), isBuy, price)
  }

  lemma CrossesExactly(s: Book, isBuy: bool, price: int)
    requires Occupied(s.Side(!isBuy))
    ensures Crosses(s, isBuy, price) <==> MeetsSome(s, isBuy, price)
  {
    var opposite := s.Side(!isBuy);
    if MeetsSome(s, isBuy, price) {
      var p :| p in opposite && opposite[p] != [] && (if isBuy then p <= price else p >= price);
      assert p == Best(!isBuy, opposite) || Before(!isBuy, Best(!isBuy, opposite), p);
    }
    if Crosses(s, isBuy, price) {
      assert Best(!isBuy, opposite) in opposite;
    }
  }

  lemma SoundIsOccupied(s: Book, side: bool)
    requires Sound(s)
    ensures Occupied(s.Side(side))
  {
    L.SoundHasNoEmptyLevel(s, side);
  }

  /** A new order crosses exactly if a limit order of its side at its price, of any volume and with any room,
      would trade. */
  lemma CrossesTrades(s: Book, isBuy: bool, price: int, volume: real, room: int)
    requires Occupied(s.Side(!isBuy)) && volume > L.TINY && room > 0
    ensures Crosses(s, isBuy, price) <==> L.LimitWalk(s, !isBuy, price, volume, room).trades != []
  {
    var opposite := s.Side(!isBuy);
    if opposite != map[] {
      L.FlatStarts(!isBuy, opposite);
    }
    L.LimitWalkIsGreedy(s, !isBuy, price, volume, room);
    FirstTrades(M.Flat(!isBuy, opposite), !isBuy, price, volume, room);
  }

  lemma FirstTrades(offers: seq<M.Offer>, hit: bool, limit: int, volume: real, room: int)
    requires volume > L.TINY && room > 0
    ensures L.Greedy(offers, hit, limit, volume, room).trades != [] <==>
      offers != [] && !Before(hit, limit, offers[0].price)
  {
  }

  // ---------- uncrossed books ----------

  /** Every bid is priced below every ask. */
  ghost predicate Uncrossed(s: Book) {
    forall b, a | b in s.bids && a in s.asks :: b < a
  }

  /** An order that is added uncrossed keeps the book uncrossed, and one that crosses does not. */
  lemma AddKeepsUncrossed(s: Book, isBuy: bool, price: int, order: Order)
    requires Uncrossed(s)
    ensures Uncrossed(B.Add(s, isBuy, price, order)) <==> !Crosses(s, isBuy, price)
  {
    var t, opposite := B.Add(s, isBuy, price, order), s.Side(!isBuy);
    assert price in t.Side(isBuy);
    if Crosses(s, isBuy, price) {
      assert Best(!isBuy, opposite) in t.Side(!isBuy);
    } else {
      forall p | p in opposite ensures if isBuy then price < p else p < price {
        assert p == Best(!isBuy, opposite) || Before(!isBuy, Best(!isBuy, opposite), p);
      }
    }
  }

  lemma AcceptKeepsUncrossed(s: Book, isBuy: bool, price: int, order: Order, postOnly: bool)
    requires Uncrossed(s)
    ensures Uncrossed(Runs.Accept(s, isBuy, price, order, postOnly)) <==> postOnly || !Crosses(s, isBuy, price)
  {
    AddKeepsUncrossed(s, isBuy, price, order.(ttl := 0));
  }

  /** All that accepting or rejecting an order does for the book. */
  lemma AcceptEffect(s: Book, isBuy: bool, price: int, order: Order, postOnly: bool)
    ensures Sound(s) ==> (Crosses(s, isBuy, price) <==> MeetsSome(s, isBuy, price))
    ensures Uncrossed(s) && postOnly ==> Uncrossed(Runs.Accept(s, isBuy, price, order, postOnly))
    ensures Sound(s) && !Resting(s, order.id) ==>
      var t := Runs.Accept(s, isBuy, price, order, postOnly); Sound(t) && (Exact(s) ==> Exact(t))
  {
    if Sound(s) {
      SoundIsOccupied(s, !isBuy);
      CrossesExactly(s, isBuy, price);
      if !Resting(s, order.id) {
        AddKeeps(s, isBuy, price, order.(ttl := 0));
      }
    }
    if Uncrossed(s) {
      AcceptKeepsUncrossed(s, isBuy, price, order, postOnly);
    }
  }

  /** An operation that adds no level to either side. */
  ghost predicate Fewer(s: Book, t: Book) {
    t.bids.Keys <= s.bids.Keys && t.asks.Keys <= s.asks.Keys
  }

  lemma OthersAddNoLevel(s: Book, op: Runs.Op)
    requires Sound(s) && Runs.Legal(s, op) && !op.Add?
    ensures Fewer(s, Runs.Apply(s, op))
  {
    var t := Runs.Apply(s, op);
    if op.Decay? {
      T.DecayEffect(s);
    } else if !op.SetTtl? {
      Runs.StepShrinks(s, op);
      forall side: bool, p | p in t.Side(side) ensures p in s.Side(side) {
      }
      assert forall p | p in t.bids :: p in t.Side(true) && p in s.Side(true);
      assert forall p | p in t.asks :: p in t.Side(false) && p in s.Side(false);
    }
  }

  /** What keeps an uncrossed book uncrossed: anything but adding an order that crosses without POST_ONLY. */
  predicate StaysUncrossed(s: Book, op: Runs.Op) {
    op.Add? ==> op.postOnly || !Crosses(s, op.isBuy, op.price)
  }

  lemma StepStaysUncrossed(s: Book, op: Runs.Op)
    requires Sound(s) && Runs.Legal(s, op) && Uncrossed(s)
    ensures Uncrossed(Runs.Apply(s, op)) <==> StaysUncrossed(s, op)
  {
    if op.Add? {
      AcceptKeepsUncrossed(s, op.isBuy, op.price, op.order, op.postOnly);
    } else {
      OthersAddNoLevel(s, op);
    }
  }

  ghost predicate UncrossedThroughout(s: Book, ops: seq<Runs.Op>)
    decreases |ops|
  {
    Uncrossed(s) && (ops != [] ==> UncrossedThroughout(Runs.Apply(s, ops[0]), ops[1..]))
  }

  predicate AllStayUncrossed(s: Book, ops: seq<Runs.Op>)
    decreases |ops|
  {
    ops != [] ==> StaysUncrossed(s, ops[0]) && AllStayUncrossed(Runs.Apply(s, ops[0]), ops[1..])
  }

  /** Over a legal run the book is uncrossed after every step if and only if no order without POST_ONLY crosses
      when it is added. */
  lemma {:induction false} RunStaysUncrossed(s: Book, ops: seq<Runs.Op>)
    requires Sound(s) && Runs.LegalRun(s, ops) && Uncrossed(s)
    ensures UncrossedThroughout(s, ops) <==> AllStayUncrossed(s, ops)
    decreases |ops|
  {
    if ops != [] {
      var t := Runs.Apply(s, ops[0]);
      Runs.StepKeeps(s, ops[0]);
      StepStaysUncrossed(s, ops[0]);
      if Uncrossed(t) {
        RunStaysUncrossed(t, ops[1..]);
      } else {
        assert !UncrossedThroughout(t, ops[1..]);
      }
    }
  }

  // ---------- time priority of a new order ----------

  /** A new order stands behind all orders at its price and in front of none; at every other price nothing moves. */
  lemma AddStandsLast(s: Book, isBuy: bool, price: int, order: Order, side: bool, p: int)
    ensures M.AtPrice(M.Flat(side, B.Add(s, isBuy, price, order).Side(side)), p) ==
      M.AtPrice(M.Flat(side, s.Side(side)), p) + (if side == isBuy && p == price then [order] else [])
  {
    M.FlatAtPrice(side, B.Add(s, isBuy, price, order).Side(side), p);
    M.FlatAtPrice(side, s.Side(side), p);
  }
}
