/** When the two matchers agree. They differ in their tolerances only: market matching stops at 1e-9 and
    takes a maker for filled below it, limit matching does both at 1e-12. */
module Agreement {
  import opened BookState
  import opened KeyOrder
  import L = Limit
  import M = Market

  type Offer = M.Offer

  const TINY := L.TINY
  const EPS := M.EPS

  // ---------- what makes them differ ----------

  /** Somewhere down the sweep the volume left is dust: enough to trade at a limit, not at market. */
  predicate TradesDust(offers: seq<Offer>, volume: real) {
    offers != [] &&
    if volume <= EPS then volume > TINY else TradesDust(offers[1..], volume - offers[0].order.volume)
  }

  /** Somewhere down the sweep a maker is left with dust: it stays at a limit, it goes at market. */
  predicate PopsDust(offers: seq<Offer>, volume: real) {
    && offers != []
    && volume > EPS
    && (TINY < offers[0].order.volume - volume < EPS || PopsDust(offers[1..], volume - offers[0].order.volume))
  }

  /** What the first k offers leave of the volume, negative if they offer more. */
  function LeftAt(offers: seq<Offer>, volume: real, k: nat): real
    requires k <= |offers|
  {
    volume - M.Offered(offers[..k])
  }

  ghost predicate Reaches(offers: seq<Offer>, volume: real, k: nat)
    requires k <= |offers|
  {
    forall j: nat | j < k :: LeftAt(offers, volume, j) > EPS
  }

  ghost predicate TradesDustAt(offers: seq<Offer>, volume: real, k: nat) {
    k < |offers| && Reaches(offers, volume, k) && TINY < LeftAt(offers, volume, k) <= EPS
  }

  ghost predicate PopsDustAt(offers: seq<Offer>, volume: real, k: nat) {
    k < |offers| && Reaches(offers, volume, k + 1) && TINY < -LeftAt(offers, volume, k + 1) < EPS
  }

  lemma LeftOfCons(offer: Offer, behind: seq<Offer>, volume: real, left: real)
    requires left == volume - offer.order.volume
    ensures LeftAt([offer] + behind, volume, 0) == volume && LeftAt(behind, left, 0) == left
    ensures forall k: nat | k <= |behind| :: LeftAt([offer] + behind, volume, k + 1) == LeftAt(behind, left, k)
  {
    assert ([offer] + behind)[..0] == [] && behind[..0] == [];
    forall k: nat | k <= |behind| ensures LeftAt([offer] + behind, volume, k + 1) == LeftAt(behind, left, k) {
      M.OfferedOfPrefix(offer, behind, k);
    }
  }

  lemma ReachesOfCons(offer: Offer, behind: seq<Offer>, volume: real, left: real, k: nat)
    requires k <= |behind| && left == volume - offer.order.volume
    ensures Reaches([offer] + behind, volume, k + 1) <==> volume > EPS && Reaches(behind, left, k)
  {
    LeftOfCons(offer, behind, volume, left);
    var offers := [offer] + behind;
    if Reaches(offers, volume, k + 1) {
      assert LeftAt(offers, volume, 0) > EPS;
      forall j: nat | j < k ensures LeftAt(behind, left, j) > EPS {
        var next: nat := j + 1;
        assert LeftAt(offers, volume, next) > EPS;
      }
    }
    if volume > EPS && Reaches(behind, left, k) {
      forall j: nat | j < k + 1 ensures LeftAt(offers, volume, j) > EPS {
        assert j > 0 ==> LeftAt(offers, volume, (j - 1) + 1) == LeftAt(behind, left, j - 1) > EPS;
      }
    }
  }

  /** Both conditions in closed form, by prefix sums of what is offered. */
  lemma {:induction false} DustInClosedForm(offers: seq<Offer>, volume: real)
    ensures TradesDust(offers, volume) <==> exists k: nat :: TradesDustAt(offers, volume, k)
    ensures PopsDust(offers, volume) <==> exists k: nat :: PopsDustAt(offers, volume, k)
  {
    if offers != [] {
      var offer, behind := offers[0], offers[1..];
      assert offers == [offer] + behind;
      var left := volume - offer.order.volume;
      DustInClosedForm(behind, left);
      TradesDustOfCons(offer, behind, volume, left);
      PopsDustOfCons(offer, behind, volume, left);
    }
  }

  lemma TradesDustOfCons(offer: Offer, behind: seq<Offer>, volume: real, left: real)
    requires left == volume - offer.order.volume
    ensures (exists k: nat :: TradesDustAt([offer] + behind, volume, k)) <==>
      if volume <= EPS then volume > TINY else exists k: nat :: TradesDustAt(behind, left, k)
  {
    var offers := [offer] + behind;
    LeftOfCons(offer, behind, volume, left);
    if exists k: nat :: TradesDustAt(offers, volume, k) {
      var k: nat :| TradesDustAt(offers, volume, k);
      if k > 0 {
        ReachesOfCons(offer, behind, volume, left, k - 1);
        assert LeftAt(offers, volume, (k - 1) + 1) == LeftAt(behind, left, k - 1);
        assert TradesDustAt(behind, left, k - 1);
      }
    }
    if volume <= EPS {
      assert volume > TINY ==> TradesDustAt(offers, volume, 0);
    } else if exists k: nat :: TradesDustAt(behind, left, k) {
      var k: nat :| TradesDustAt(behind, left, k);
      ReachesOfCons(offer, behind, volume, left, k);
      assert TradesDustAt(offers, volume, k + 1);
    }
  }

  lemma PopsDustOfCons(offer: Offer, behind: seq<Offer>, volume: real, left: real)
    requires left == volume - offer.order.volume
    ensures (exists k: nat :: PopsDustAt([offer] + behind, volume, k)) <==>
      volume > EPS && (TINY < -left < EPS || exists k: nat :: PopsDustAt(behind, left, k))
  {
    var offers := [offer] + behind;
    LeftOfCons(offer, behind, volume, left);
    assert LeftAt(offers, volume, 0 + 1) == LeftAt(behind, left, 0);
    if exists k: nat :: PopsDustAt(offers, volume, k) {
      var k: nat :| PopsDustAt(offers, volume, k);
      ReachesOfCons(offer, behind, volume, left, k);
      if k > 0 {
        assert LeftAt(offers, volume, k + 1) == LeftAt(behind, left, k);
        assert PopsDustAt(behind, left, k - 1);
      }
    }
    if volume > EPS && TINY < -left < EPS {
      ReachesOfCons(offer, behind, volume, left, 0);
      assert PopsDustAt(offers, volume, 0);
    }
    if volume > EPS && exists k: nat :: PopsDustAt(behind, left, k) {
      var k: nat :| PopsDustAt(behind, left, k);
      ReachesOfCons(offer, behind, volume, left, k + 1);
      assert LeftAt(offers, volume, (k + 1) + 1) == LeftAt(behind, left, k + 1);
      assert PopsDustAt(offers, volume, k + 1);
    }
  }

  // ---------- the exact condition ----------

  ghost predicate WithinLimit(offers: seq<Offer>, hit: bool, limit: int) {
    forall i | 0 <= i < |offers| :: !Before(hit, limit, offers[i].price)
  }

  /** The same trades and the same orders left behind. */
  ghost predicate Same(l: L.Sweep, m: M.Sweep) {
    l.trades == m.trades && l.rest == m.rest
  }

  ghost predicate MayAgree(dustTraded: bool, dustPopped: bool, trades: nat, room: int) {
    var cap := if room < 0 then 0 else room;
    trades <= cap && !dustPopped && (trades == cap || !dustTraded)
  }

  ghost predicate AgreesIff(offers: seq<Offer>, hit: bool, limit: int, volume: real, room: int) {
    var m := M.Greedy(offers, volume, false);
    Same(L.Greedy(offers, hit, limit, volume, room), m) <==>
    MayAgree(TradesDust(offers, volume), PopsDust(offers, volume), |m.trades|, room)
  }

  function Whole(offer: Offer): M.Trade {
    M.TradeWith(offer.price, offer.order, offer.order.volume)
  }

  lemma LimitTakesWhole(offer: Offer, behind: seq<Offer>, hit: bool, limit: int, volume: real, room: int, left: real)
    requires !Before(hit, limit, offer.price) && volume > TINY && room > 0
    requires volume >= offer.order.volume && left == volume - offer.order.volume
    ensures var l, next := L.Greedy([offer] + behind, hit, limit, volume, room), L.Greedy(behind, hit, limit, left, room - 1);
      l.trades == [Whole(offer)] + next.trades && l.rest == next.rest
  {
    assert L.FillOf(offer.order, volume) == offer.order.volume;
    L.GreedyFirst(offer, behind, hit, limit, volume, room);
  }

  lemma MarketTakesWhole(offer: Offer, behind: seq<Offer>, volume: real, left: real)
    requires volume > EPS && volume >= offer.order.volume && left == volume - offer.order.volume
    ensures var m, next := M.Greedy([offer] + behind, volume, false), M.Greedy(behind, left, false);
      m.trades == [Whole(offer)] + next.trades && m.rest == next.rest
  {
    assert M.Meet(offer.price, offer.order, volume, false).fill == offer.order.volume;
    M.GreedyFirst(offer, behind, volume, false);
  }

  lemma SweepsAfterWhole(offer: Offer, behind: seq<Offer>, hit: bool, limit: int, volume: real, room: int, left: real)
    requires !Before(hit, limit, offer.price) && volume > EPS && room > 0
    requires volume >= offer.order.volume && left == volume - offer.order.volume
    ensures Same(L.Greedy([offer] + behind, hit, limit, volume, room), M.Greedy([offer] + behind, volume, false)) <==>
      Same(L.Greedy(behind, hit, limit, left, room - 1), M.Greedy(behind, left, false))
    ensures |M.Greedy([offer] + behind, volume, false).trades| == 1 + |M.Greedy(behind, left, false).trades|
  {
    LimitTakesWhole(offer, behind, hit, limit, volume, room, left);
    MarketTakesWhole(offer, behind, volume, left);
    ConsIsEqual(Whole(offer), L.Greedy(behind, hit, limit, left, room - 1).trades, M.Greedy(behind, left, false).trades);
  }

  lemma DustAfterWhole(offer: Offer, behind: seq<Offer>, volume: real, left: real)
    requires volume > EPS && volume >= offer.order.volume && left == volume - offer.order.volume
    ensures TradesDust([offer] + behind, volume) == TradesDust(behind, left)
    ensures PopsDust([offer] + behind, volume) == PopsDust(behind, left)
  {
    assert ([offer] + behind)[1..] == behind;
  }

  /** The first maker is used up by a taker that offers at least as much. */
  lemma SameAfterWhole(offer: Offer, behind: seq<Offer>, hit: bool, limit: int, volume: real, room: int, left: real)
    requires !Before(hit, limit, offer.price) && volume > EPS && room > 0
    requires volume >= offer.order.volume && left == volume - offer.order.volume
    requires AgreesIff(behind, hit, limit, left, room - 1)
    ensures AgreesIff([offer] + behind, hit, limit, volume, room)
  {
    SweepsAfterWhole(offer, behind, hit, limit, volume, room, left);
    DustAfterWhole(offer, behind, volume, left);
  }

  /** The first maker offers more than the taker wants. */
  lemma SameAfterPart(offer: Offer, behind: seq<Offer>, hit: bool, limit: int, volume: real, room: int)
    requires !Before(hit, limit, offer.price) && volume > EPS && room > 0 && volume < offer.order.volume
    ensures AgreesIff([offer] + behind, hit, limit, volume, room)
  {
    L.GreedyFirst(offer, behind, hit, limit, volume, room);
    M.GreedyFirst(offer, behind, volume, false);
    assert ([offer] + behind)[1..] == behind;
    var left := volume - offer.order.volume;
    var trade := M.TradeWith(offer.price, offer.order, L.FillOf(offer.order, volume));
    NothingLeft(behind, hit, limit, room - 1);
    assert !TradesDust(behind, left) && !PopsDust(behind, left);
    assert [trade] + [] == [trade];
    assert |[M.Offer(offer.price, M.Reduced(offer.order, L.FillOf(offer.order, volume)))] + behind| != |behind|;
  }

  lemma NothingLeft(behind: seq<Offer>, hit: bool, limit: int, room: int)
    ensures M.Greedy(behind, 0.0, false).trades == [] == L.Greedy(behind, hit, limit, 0.0, room).trades
    ensures M.Greedy(behind, 0.0, false).rest == behind == L.Greedy(behind, hit, limit, 0.0, room).rest
  {
  }

  lemma ConsIsEqual<T>(x: T, a: seq<T>, b: seq<T>)
    ensures [x] + a == [x] + b <==> a == b
  {
    assert ([x] + a)[1..] == a && ([x] + b)[1..] == b;
  }

  /** For every book side, volume and room, with the limit out of reach: a non-agent taker's limit sweep and
      its market sweep make the same trades and leave the same orders if and only if the room holds the market
      trades, no maker is left with dust, and no dust is left to trade, unless the room ends there anyway. */
  lemma {:induction false} AgreeExactly(offers: seq<Offer>, hit: bool, limit: int, volume: real, room: int)
    requires WithinLimit(offers, hit, limit)
    ensures var m := M.Greedy(offers, volume, false);
      Same(L.Greedy(offers, hit, limit, volume, room), m) <==>
      MayAgree(TradesDust(offers, volume), PopsDust(offers, volume), |m.trades|, room)
  {
    if offers != [] && volume > EPS && room > 0 {
      var offer, behind := offers[0], offers[1..];
      assert offers == [offer] + behind;
      assert WithinLimit(behind, hit, limit);
      AgreeExactly(behind, hit, limit, volume - offer.order.volume, room - 1);
      if volume >= offer.order.volume {
        SameAfterWhole(offer, behind, hit, limit, volume, room, volume - offer.order.volume);
      } else {
        SameAfterPart(offer, behind, hit, limit, volume, room);
      }
    } else {
      AgreeAtOnce(offers, hit, limit, volume, room);
    }
  }

  lemma AgreeAtOnce(offers: seq<Offer>, hit: bool, limit: int, volume: real, room: int)
    requires WithinLimit(offers, hit, limit) && (offers == [] || volume <= EPS || room <= 0)
    ensures AgreesIff(offers, hit, limit, volume, room)
  {
    if offers != [] {
      assert offers == [offers[0]] + offers[1..];
      if volume > EPS {
        M.GreedyFirst(offers[0], offers[1..], volume, false);
      } else if volume > TINY && room > 0 {
        L.GreedyFirst(offers[0], offers[1..], hit, limit, volume, room);
      }
    }
  }

  // ---------- without negative volumes ----------

  ghost predicate NonNegative(offers: seq<Offer>) {
    forall i | 0 <= i < |offers| :: offers[i].order.volume >= 0.0
  }

  lemma {:induction false} LeftShrinks(offers: seq<Offer>, volume: real, j: nat, k: nat)
    requires NonNegative(offers) && j <= k <= |offers|
    ensures LeftAt(offers, volume, j) >= LeftAt(offers, volume, k)
    decreases k - j
  {
    if j < k {
      LeftShrinks(offers, volume, j, k - 1);
      assert offers[..k] == offers[..k - 1] + [offers[k - 1]];
      OfferedOfSnoc(offers[..k - 1], offers[k - 1]);
    }
  }

  lemma {:induction false} OfferedOfSnoc(offers: seq<Offer>, offer: Offer)
    ensures M.Offered(offers + [offer]) == M.Offered(offers) + offer.order.volume
  {
    if offers == [] {
      assert [] + [offer] == [offer] && [offer][1..] == [];
    } else {
      OfferedOfSnoc(offers[1..], offer);
      assert (offers + [offer])[1..] == offers[1..] + [offer];
    }
  }

  lemma {:induction false} DustIsReached(offers: seq<Offer>, volume: real, k: nat)
    requires NonNegative(offers) && k < |offers| && TINY < LeftAt(offers, volume, k) <= EPS
    ensures exists j: nat :: TradesDustAt(offers, volume, j)
  {
    if Reaches(offers, volume, k) {
      assert TradesDustAt(offers, volume, k);
    } else {
      var j: nat :| j < k && LeftAt(offers, volume, j) <= EPS;
      LeftShrinks(offers, volume, j, k);
      DustIsReached(offers, volume, j);
    }
  }

  /** With no negative volume and room for one trade more than the market makes, agreement fails exactly if
      the volume left after some offers is dust, or what some offer exceeds it by is. */
  lemma AgreeExactlyOnVolumes(offers: seq<Offer>, hit: bool, limit: int, volume: real, room: int)
    requires WithinLimit(offers, hit, limit) && NonNegative(offers)
    requires room > |M.Greedy(offers, volume, false).trades|
    ensures Same(L.Greedy(offers, hit, limit, volume, room), M.Greedy(offers, volume, false)) <==>
      && (forall k: nat | k < |offers| :: !(TINY < LeftAt(offers, volume, k) <= EPS))
      && (forall k: nat | k < |offers| && LeftAt(offers, volume, k) > EPS :: !(TINY < -LeftAt(offers, volume, k + 1) < EPS))
  {
    AgreeExactly(offers, hit, limit, volume, room);
    DustInClosedForm(offers, volume);
    forall k: nat | k < |offers| && TINY < LeftAt(offers, volume, k) <= EPS
      ensures TradesDust(offers, volume)
    {
      DustIsReached(offers, volume, k);
    }
    forall k: nat | k < |offers| && LeftAt(offers, volume, k) > EPS && TINY < -LeftAt(offers, volume, k + 1) < EPS
      ensures PopsDustAt(offers, volume, k)
    {
      forall j: nat | j < k + 1 ensures LeftAt(offers, volume, j) > EPS {
        LeftShrinks(offers, volume, j, k);
      }
    }
    if PopsDust(offers, volume) {
      var k: nat :| PopsDustAt(offers, volume, k);
      assert LeftAt(offers, volume, k) > EPS;
    }
  }

  // ---------- integer lots ----------

  function Lot(k: int): real {
    k as real
  }

  /** A whole number of lots. */
  ghost predicate Lots(volume: real) {
    exists k :: volume == Lot(k)
  }

  ghost predicate InLots(offers: seq<Offer>) {
    forall i | 0 <= i < |offers| :: Lots(offers[i].order.volume)
  }

  lemma LotsHaveNoDust(volume: real)
    requires Lots(volume)
    ensures !(TINY < volume <= EPS) && !(TINY < volume < EPS)
  {
    var k :| volume == Lot(k);
    assert k <= 0 || k >= 1;
  }

  lemma LotsSubtract(a: real, b: real)
    requires Lots(a) && Lots(b)
    ensures Lots(a - b)
  {
    var j, k :| a == Lot(j) && b == Lot(k);
    assert a - b == Lot(j - k);
  }

  lemma {:induction false} LotsNeverDiffer(offers: seq<Offer>, volume: real)
    requires Lots(volume) && InLots(offers)
    ensures !TradesDust(offers, volume) && !PopsDust(offers, volume)
  {
    if offers != [] {
      var maker := offers[0].order.volume;
      LotsSubtract(volume, maker);
      LotsSubtract(maker, volume);
      LotsHaveNoDust(volume);
      LotsHaveNoDust(maker - volume);
      LotsNeverDiffer(offers[1..], volume - maker);
    }
  }

  /** The limit trades are the first of the market trades, and all of them when the limit and the room allow. */
  ghost predicate Agreed(l: L.Sweep, m: M.Sweep, within: bool, room: int) {
    && l.trades <= m.trades
    && (within && |m.trades| <= room ==> l.trades == m.trades && l.rest == m.rest && l.remain == m.remain)
  }

  lemma AgreesFirst(offer: Offer, behind: seq<Offer>, hit: bool, limit: int, volume: real, room: int, within: bool)
    requires volume > EPS && !(TINY < offer.order.volume - volume < EPS) && (within ==> !Before(hit, limit, offer.price))
    requires var left := volume - L.FillOf(offer.order, volume);
      Agreed(L.Greedy(behind, hit, limit, left, room - 1), M.Greedy(behind, left, false), within, room - 1)
    ensures Agreed(L.Greedy([offer] + behind, hit, limit, volume, room), M.Greedy([offer] + behind, volume, false), within, room)
  {
    M.GreedyFirst(offer, behind, volume, false);
    if room > 0 && !Before(hit, limit, offer.price) {
      L.GreedyFirst(offer, behind, hit, limit, volume, room);
    }
  }

  /** Without dust, whatever the limit and the room: the limit trades are the first of the market trades. */
  lemma {:induction false} AgreesWithoutDust(offers: seq<Offer>, hit: bool, limit: int, volume: real, room: int)
    requires !TradesDust(offers, volume) && !PopsDust(offers, volume)
    ensures Agreed(L.Greedy(offers, hit, limit, volume, room), M.Greedy(offers, volume, false),
              WithinLimit(offers, hit, limit), room)
  {
    if volume > EPS && offers != [] {
      var offer, behind := offers[0], offers[1..];
      var left := volume - L.FillOf(offer.order, volume);
      assert left == volume - offer.order.volume || left == 0.0;
      AgreesWithoutDust(behind, hit, limit, left, room - 1);
      if WithinLimit(offers, hit, limit) {
        assert WithinLimit(behind, hit, limit);
      }
      AgreesFirst(offer, behind, hit, limit, volume, room, WithinLimit(offers, hit, limit));
      assert offers == [offer] + behind;
    }
  }

  /** On integer lots, a non-agent taker's limit trades are the first of its market trades; with the limit
      out of reach and enough room they are all of them, and the same orders are left behind. */
  lemma AgreesOnLots(offers: seq<Offer>, hit: bool, limit: int, volume: real, room: int)
    requires Lots(volume) && InLots(offers)
    ensures Agreed(L.Greedy(offers, hit, limit, volume, room), M.Greedy(offers, volume, false),
              WithinLimit(offers, hit, limit), room)
  {
    LotsNeverDiffer(offers, volume);
    AgreesWithoutDust(offers, hit, limit, volume, room);
  }

  // ---------- the tolerances themselves ----------

  /** What the smallest taker is: more than 1e-9 at market and more than 1e-12 at a limit. */
  lemma SmallestTaker(offers: seq<Offer>, hit: bool, limit: int, volume: real, room: int)
    requires offers != [] && !Before(hit, limit, offers[0].price) && room > 0
    ensures M.Greedy(offers, volume, false).trades != [] <==> volume > 0.000000001
    ensures L.Greedy(offers, hit, limit, volume, room).trades != [] <==> volume > 0.000000000001
  {
    assert offers == [offers[0]] + offers[1..];
    if volume > EPS {
      M.GreedyFirst(offers[0], offers[1..], volume, false);
    }
    if volume > TINY {
      L.GreedyFirst(offers[0], offers[1..], hit, limit, volume, room);
    }
  }

  /** What the smallest order left behind is: a maker that is not used up rests on if it keeps at least 1e-9 at
      market and more than 1e-12 at a limit. */
  lemma SmallestRemainder(offer: Offer, hit: bool, limit: int, volume: real, room: int)
    requires !Before(hit, limit, offer.price) && room > 0 && EPS < volume < offer.order.volume
    ensures M.Greedy([offer], volume, false).rest != [] <==> offer.order.volume - volume >= 0.000000001
    ensures L.Greedy([offer], hit, limit, volume, room).rest != [] <==> offer.order.volume - volume > 0.000000000001
  {
    assert [offer] == [offer] + [];
    M.GreedyFirst(offer, [], volume, false);
    L.GreedyFirst(offer, [], hit, limit, volume, room);
  }

  // ---------- instances ----------

  /** A taker of 5e-10 trades at a limit but not at market. */
  lemma DustTradesOnlyAtLimit()
    ensures var offers := [M.Offer(100, Order(1, 1.0, false, 0, 0))];
      && TradesDust(offers, 0.0000000005)
      && M.Greedy(offers, 0.0000000005, false).trades == []
      && |L.Greedy(offers, false, 100, 0.0000000005, 1).trades| == 1
  {
    var offers := [M.Offer(100, Order(1, 1.0, false, 0, 0))];
    assert offers == [offers[0]] + [];
    L.GreedyFirst(offers[0], [], false, 100, 0.0000000005, 1);
  }

  /** A maker of 1 + 5e-10 hit by a taker of 1 is gone at market and rests on at a limit. */
  lemma DustRestsOnlyAtLimit()
    ensures var offers := [M.Offer(100, Order(1, 1.0000000005, false, 0, 0))];
      && PopsDust(offers, 1.0)
      && M.Greedy(offers, 1.0, false).rest == []
      && |L.Greedy(offers, false, 100, 1.0, 1).rest| == 1
  {
    var offers := [M.Offer(100, Order(1, 1.0000000005, false, 0, 0))];
    assert offers == [offers[0]] + [];
    L.GreedyFirst(offers[0], [], false, 100, 1.0, 1);
    M.GreedyFirst(offers[0], [], 1.0, false);
  }

  // ---------- on whole books ----------

  lemma FlatDeterminesSide(isBuy: bool, a: Levels, b: Levels)
    requires forall p | p in a :: a[p] != []
    requires forall p | p in b :: b[p] != []
    requires M.Flat(isBuy, a) == M.Flat(isBuy, b)
    ensures a == b
  {
    forall p
      ensures p in a <==> p in b
      ensures p in a && p in b ==> a[p] == b[p]
    {
      M.FlatAtPrice(isBuy, a, p);
      M.FlatAtPrice(isBuy, b, p);
      assert QueueAt(a, p) == QueueAt(b, p);
    }
  }

  ghost predicate SameOutcome(l: L.Run, m: M.Run) {
    l.trades == m.trades && l.book.bids == m.book.bids && l.book.asks == m.book.asks
  }

  /** On books: equal trades and equal queues. */
  lemma SameOnBooks(s: Book, hit: bool, limit: int, volume: real, room: int)
    requires Sound(s)
    ensures var offers := M.Flat(hit, s.Side(hit));
      SameOutcome(L.LimitWalk(s, hit, limit, volume, room), M.Walk(s, hit, volume, false)) <==>
      Same(L.Greedy(offers, hit, limit, volume, room), M.Greedy(offers, volume, false))
  {
    L.SoundHasNoEmptyLevel(s, hit);
    M.WalkIsGreedy(s, hit, volume, false);
    L.LimitWalkIsGreedy(s, hit, limit, volume, room);
    var l, m := L.LimitWalk(s, hit, limit, volume, room).book, M.Walk(s, hit, volume, false).book;
    L.LimitWalkKeeps(s, hit, limit, volume, room);
    M.WalkKeeps(s, hit, volume, false);
    L.SoundHasNoEmptyLevel(l, hit);
    L.SoundHasNoEmptyLevel(m, hit);
    if M.Flat(hit, l.Side(hit)) == M.Flat(hit, m.Side(hit)) {
      FlatDeterminesSide(hit, l.Side(hit), m.Side(hit));
    }
    assert l.Side(!hit) == m.Side(!hit);
  }

  lemma WithinOnBooks(s: Book, hit: bool, limit: int)
    requires forall p | p in s.Side(hit) :: !Before(hit, limit, p)
    ensures WithinLimit(M.Flat(hit, s.Side(hit)), hit, limit)
  {
    var offers := M.Flat(hit, s.Side(hit));
    forall i | 0 <= i < |offers| ensures !Before(hit, limit, offers[i].price) {
      M.FlatMembers(hit, s.Side(hit), offers[i]);
      assert offers[i] in offers;
    }
  }

  /** On every agreeing book with the limit out of reach: the exact condition under which a limit order and
      a market order of a non-agent taker have the same trades and leave the same queues. */
  lemma MatchersAgreeExactly(s: Book, hit: bool, limit: int, volume: real, room: int)
    requires Sound(s) && forall p | p in s.Side(hit) :: !Before(hit, limit, p)
    ensures var offers := M.Flat(hit, s.Side(hit));
      var m := M.Walk(s, hit, volume, false);
      SameOutcome(L.LimitWalk(s, hit, limit, volume, room), m) <==>
      MayAgree(TradesDust(offers, volume), PopsDust(offers, volume), |m.trades|, room)
  {
    SameOnBooks(s, hit, limit, volume, room);
    WithinOnBooks(s, hit, limit);
    L.SoundHasNoEmptyLevel(s, hit);
    M.WalkIsGreedy(s, hit, volume, false);
    AgreeExactly(M.Flat(hit, s.Side(hit)), hit, limit, volume, room);
  }

  /** On integer lots room for the market trades is enough. */
  lemma MatchersAgreeOnLots(s: Book, hit: bool, limit: int, volume: real, room: int)
    requires Sound(s) && Lots(volume) && InLots(M.Flat(hit, s.Side(hit)))
    requires forall p | p in s.Side(hit) :: !Before(hit, limit, p)
    requires |M.Walk(s, hit, volume, false).trades| <= room
    ensures SameOutcome(L.LimitWalk(s, hit, limit, volume, room), M.Walk(s, hit, volume, false))
    ensures L.LimitWalk(s, hit, limit, volume, room).remain == M.Walk(s, hit, volume, false).remain
  {
    SameOnBooks(s, hit, limit, volume, room);
    WithinOnBooks(s, hit, limit);
    L.SoundHasNoEmptyLevel(s, hit);
    M.WalkIsGreedy(s, hit, volume, false);
    L.LimitWalkIsGreedy(s, hit, limit, volume, room);
    AgreesOnLots(M.Flat(hit, s.Side(hit)), hit, limit, volume, room);
  }
}
