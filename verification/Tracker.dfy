/** The agent order tracker: a map from order id to price and side, and price buckets of ids that must
    describe the same set, searched for the order nearest to a price. */
module Tracker {
  import opened KeyOrder

  type Int64 = x: int | -0x8000_0000_0000_0000 <= x < 0x8000_0000_0000_0000
  type Int128 = x: int | -0x8000_0000_0000_0000_0000_0000_0000_0000 <= x < 0x8000_0000_0000_0000_0000_0000_0000_0000

  const INT64_MIN: int := -0x8000_0000_0000_0000

  datatype Info = Info(price: Int64, isBuySide: bool)

  type Orders = map<Int64, Info>
  type Buckets = map<Int64, set<Int64>>

  datatype State = State(orders: Orders, buckets: Buckets)

  // ---------- agreement ----------

  predicate InBucket(buckets: Buckets, price: Int64, id: Int64) {
    price in buckets && id in buckets[price]
  }

  predicate Priced(orders: Orders, price: Int64, id: Int64) {
    id in orders && orders[id].price == price
  }

  /** Both maps describe the same set of (price, id) pairs, and no bucket is empty. */
  ghost predicate Agree(s: State) {
    && (forall p | p in s.buckets :: s.buckets[p] != {})
    && (forall p, id :: InBucket(s.buckets, p, id) <==> Priced(s.orders, p, id))
  }

  /** The buckets are determined by the orders: agreement leaves no room for a second set of buckets. */
  lemma AgreeDetermines(s: State, t: State)
    requires Agree(s) && Agree(t) && s.orders == t.orders
    ensures s == t
  {
    BucketsWithin(s, t);
    BucketsWithin(t, s);
    forall p | p in s.buckets ensures s.buckets[p] == t.buckets[p] {
      forall id: Int64 ensures id in s.buckets[p] <==> id in t.buckets[p] {
        assert InBucket(s.buckets, p, id) <==> InBucket(t.buckets, p, id);
      }
    }
  }

  lemma BucketsWithin(s: State, t: State)
    requires Agree(s) && Agree(t) && s.orders == t.orders
    ensures forall p | p in s.buckets :: p in t.buckets
  {
    forall p | p in s.buckets ensures p in t.buckets {
      EmptyOrNot(s.buckets[p]);
      var id: Int64 :| id in s.buckets[p];
      assert InBucket(s.buckets, p, id) && InBucket(t.buckets, p, id);
    }
  }

  // ---------- updates ----------

  /** Takes an id out of the bucket of a price, and the bucket out of the map once it is empty. */
  function Unbucketed(buckets: Buckets, price: Int64, id: Int64): Buckets {
    if price !in buckets then buckets
    else if buckets[price] - {id} == {} then buckets - {price}
    else buckets[price := buckets[price] - {id}]
  }

  function Bucketed(buckets: Buckets, price: Int64, id: Int64): Buckets {
    buckets[price := (if price in buckets then buckets[price] else {}) + {id}]
  }

  function Removed(s: State, id: Int64): State {
    if id !in s.orders then s
    else State(s.orders - {id}, Unbucketed(s.buckets, s.orders[id].price, id))
  }

  function Added(s: State, id: Int64, info: Info): State {
    var buckets := if id in s.orders then Unbucketed(s.buckets, s.orders[id].price, id) else s.buckets;
    State(s.orders[id := info], Bucketed(buckets, info.price, id))
  }

  lemma RemovedAgrees(s: State, id: Int64)
    requires Agree(s)
    ensures Agree(Removed(s, id))
  {
    if id in s.orders {
      var t := Removed(s, id);
      forall p: Int64, k: Int64
        ensures InBucket(t.buckets, p, k) <==> Priced(t.orders, p, k)
      {
        assert InBucket(s.buckets, p, k) <==> Priced(s.orders, p, k);
        assert p == s.orders[id].price && p in s.buckets && p !in t.buckets ==> k !in s.buckets[p] - {id};
      }
    }
  }

  lemma AddedAgrees(s: State, id: Int64, info: Info)
    requires Agree(s)
    ensures Agree(Added(s, id, info))
  {
    RemovedAgrees(s, id);
    var r, t := Removed(s, id), Added(s, id, info);
    assert t.buckets == Bucketed(r.buckets, info.price, id);
    forall p: Int64, k: Int64
      ensures InBucket(t.buckets, p, k) <==> Priced(t.orders, p, k)
    {
      assert InBucket(r.buckets, p, k) <==> Priced(r.orders, p, k);
    }
  }

  // ---------- runs ----------

  datatype Op = Add(id: Int64, info: Info) | Remove(id: Int64) | Clear

  const EMPTY := State(map[], map[])

  function Apply(s: State, op: Op): State {
    match op
    case Add(id, info) => Added(s, id, info)
    case Remove(id) => Removed(s, id)
    case Clear => EMPTY
  }

  function Run(s: State, ops: seq<Op>): State {
    if ops == [] then s else Apply(Run(s, ops[..|ops| - 1]), ops[|ops| - 1])
  }

  predicate TrackedAs(orders: Orders, id: Int64, info: Info) {
    id in orders && orders[id] == info
  }

  /** The i-th operation put `id` at `info`, and nothing later moved or took it. */
  ghost predicate LastWord(ops: seq<Op>, i: nat, id: Int64, info: Info) {
    && i < |ops|
    && ops[i] == Add(id, info)
    && forall j | i < j < |ops| :: !ops[j].Clear? && ops[j].id != id
  }

  /** After any run from the empty tracker the two maps agree, and an id is tracked at a price and side
      exactly when the last operation that concerns it is the `add` that says so. */
  lemma {:induction false} RunAgrees(ops: seq<Op>)
    ensures Agree(Run(EMPTY, ops))
    ensures forall id, info ::
      TrackedAs(Run(EMPTY, ops).orders, id, info) <==> exists i: nat :: LastWord(ops, i, id, info)
  {
    if ops != [] {
      var before, last := ops[..|ops| - 1], ops[|ops| - 1];
      RunAgrees(before);
      var s := Run(EMPTY, before);
      match last {
        case Add(id, info) => AddedAgrees(s, id, info);
        case Remove(id) => RemovedAgrees(s, id);
        case Clear =>
      }
      assert before + [last] == ops;
      forall id, info
        ensures TrackedAs(Run(EMPTY, ops).orders, id, info) <==> exists i: nat :: LastWord(ops, i, id, info)
      {
        LastWordStep(before, last, id, info);
        assert TrackedAs(s.orders, id, info) <==> exists i: nat :: LastWord(before, i, id, info);
      }
    }
  }

  lemma LastWordStep(before: seq<Op>, last: Op, id: Int64, info: Info)
    ensures (exists i: nat :: LastWord(before + [last], i, id, info)) <==>
      last == Add(id, info) || (!last.Clear? && last.id != id && exists i: nat :: LastWord(before, i, id, info))
  {
    var ops := before + [last];
    if i: nat :| LastWord(ops, i, id, info) {
      assert ops[|before|] == last;
      assert ops[i] == if i < |before| then before[i] else last;
      assert forall j | 0 <= j < |before| :: ops[j] == before[j];
      assert i < |before| ==> LastWord(before, i, id, info);
    }
    if last == Add(id, info) {
      assert LastWord(ops, |before|, id, info);
    } else if !last.Clear? && last.id != id && exists i: nat :: LastWord(before, i, id, info) {
      var i: nat :| LastWord(before, i, id, info);
      assert LastWord(ops, i, id, info);
    }
  }

  // ---------- the nearest order ----------

  function Distance(p: int, q: int): nat {
    if p >= q then p - q else q - p
  }

  /** `abs_diff`: the difference is taken in 128 bits and cast to an unsigned 64-bit number. The cast
      never loses anything. */
  function AbsDiff(lhs: Int64, rhs: Int64): (d: int)
    ensures d == Distance(lhs, rhs)
  {
    var diff: Int128 := lhs - rhs;
    var positive: Int128 := if diff < 0 then -diff else diff;
    positive % 0x1_0000_0000_0000_0000
  }

  /** Nearer to the target, or as near and cheaper, or at the same price with a smaller id. */
  predicate Closer(target: int, price: int, id: int, price': int, id': int) {
    var d, d' := Distance(price, target), Distance(price', target);
    d < d' || (d == d' && (price < price' || (price == price' && id < id')))
  }

  /** `id` at `price` is tracked and every other tracked order is further from the target. */
  ghost predicate IsClosest(orders: Orders, target: Int64, id: int, price: int) {
    && id in orders
    && orders[id].price == price
    && forall k: Int64 | k in orders && k != id :: Closer(target, price, id, orders[k].price, k)
  }

  lemma ClosestIsUnique(orders: Orders, target: Int64, id: int, price: int, id': int, price': int)
    requires IsClosest(orders, target, id, price) && IsClosest(orders, target, id', price')
    ensures id == id' && price == price'
  {
  }

  datatype Candidate = None | Some(price: Int64, id: Int64)

  /** What the search knows of one side of the target: nothing is there, or the candidate is the smallest id
      at the nearest price of that side. */
  ghost predicate NearestBelow(s: State, target: Int64, c: Candidate) {
    && (c.None? ==> forall p | p in s.buckets :: p >= target)
    && (c.Some? ==>
         && c.price in s.buckets && c.price < target && c.id in s.buckets[c.price]
         && (forall id | id in s.buckets[c.price] :: c.id <= id)
         && (forall p | p in s.buckets && p < target :: p <= c.price))
  }

  ghost predicate NearestAbove(s: State, target: Int64, c: Candidate) {
    && (c.None? ==> forall p | p in s.buckets :: p <= target)
    && (c.Some? ==>
         && c.price in s.buckets && c.price > target && c.id in s.buckets[c.price]
         && (forall id | id in s.buckets[c.price] :: c.id <= id)
         && (forall p | p in s.buckets && p > target :: p >= c.price))
  }

  lemma BelowIsClosest(s: State, target: Int64, le: Candidate, ge: Candidate)
    requires Agree(s) && target !in s.buckets && NearestBelow(s, target, le) && NearestAbove(s, target, ge)
    requires le.Some? && (ge.Some? ==> Distance(le.price, target) <= Distance(ge.price, target))
    ensures IsClosest(s.orders, target, le.id, le.price)
  {
    assert InBucket(s.buckets, le.price, le.id) && Priced(s.orders, le.price, le.id);
    forall k: Int64 | k in s.orders && k != le.id ensures Closer(target, le.price, le.id, s.orders[k].price, k) {
      assert Priced(s.orders, s.orders[k].price, k) && InBucket(s.buckets, s.orders[k].price, k);
    }
  }

  lemma AboveIsClosest(s: State, target: Int64, le: Candidate, ge: Candidate)
    requires Agree(s) && target !in s.buckets && NearestBelow(s, target, le) && NearestAbove(s, target, ge)
    requires ge.Some? && (le.Some? ==> Distance(ge.price, target) < Distance(le.price, target))
    ensures IsClosest(s.orders, target, ge.id, ge.price)
  {
    assert InBucket(s.buckets, ge.price, ge.id) && Priced(s.orders, ge.price, ge.id);
    forall k: Int64 | k in s.orders && k != ge.id ensures Closer(target, ge.price, ge.id, s.orders[k].price, k) {
      assert Priced(s.orders, s.orders[k].price, k) && InBucket(s.buckets, s.orders[k].price, k);
    }
  }

  class AgentOrderTracker {
    var idToInfo: Orders
    var priceToIds: Buckets

    function Contents(): State
      reads this
    {
      State(idToInfo, priceToIds)
    }

    ghost predicate Valid()
      reads this
    {
      Agree(Contents())
    }

    constructor ()
      ensures Valid() && Contents() == EMPTY
    {
      idToInfo, priceToIds := map[], map[];
    }

    method EraseFromBucket(price: Int64, orderId: Int64)
      modifies `priceToIds
      ensures priceToIds == Unbucketed(old(priceToIds), price, orderId)
    {
      if price in priceToIds {
        priceToIds := priceToIds[price := priceToIds[price] - {orderId}];
        if priceToIds[price] == {} {
          priceToIds := priceToIds - {price};
          assert priceToIds == old(priceToIds) - {price};
        }
      }
    }

    method Add(orderId: Int64, price: Int64, isBuySide: bool)
      modifies this
      ensures Contents() == Added(old(Contents()), orderId, Info(price, isBuySide))
      ensures old(Valid()) ==> Valid()
    {
      if Agree(Contents()) {
        AddedAgrees(Contents(), orderId, Info(price, isBuySide));
      }
      if orderId in idToInfo {
        EraseFromBucket(idToInfo[orderId].price, orderId);
      }
      idToInfo := idToInfo[orderId := Info(price, isBuySide)];
      priceToIds := Bucketed(priceToIds, price, orderId);
    }

    method Remove(orderId: Int64)
      modifies this
      ensures Contents() == Removed(old(Contents()), orderId)
      ensures old(Valid()) ==> Valid()
    {
      if Agree(Contents()) {
        RemovedAgrees(Contents(), orderId);
      }
      if orderId !in idToInfo {
        return;
      }
      EraseFromBucket(idToInfo[orderId].price, orderId);
      idToInfo := idToInfo - {orderId};
    }

    method Clear()
      modifies this
      ensures Contents() == EMPTY && Valid()
    {
      idToInfo, priceToIds := map[], map[];
    }

    /** The first bucket above the target, which is not a bucket's own price. */
    method CandidateAbove(target: Int64) returns (c: Candidate)
      requires Valid() && target !in priceToIds
      ensures NearestAbove(Contents(), target, c)
    {
      var above := set p | p in priceToIds && p >= target;
      if above == {} {
        assert forall p | p in priceToIds :: p in above || p < target;
        c := None;
      } else {
        assert forall p | p in priceToIds && p >= target :: p in above;
        var price := First(false, above);
        c := Some(price, First(false, priceToIds[price]));
      }
    }

    /** The bucket before that one. */
    method CandidateBelow(target: Int64) returns (c: Candidate)
      requires Valid() && target !in priceToIds
      ensures NearestBelow(Contents(), target, c)
    {
      var below := set p | p in priceToIds && p < target;
      if below == {} {
        assert forall p | p in priceToIds :: p in below || p >= target;
        c := None;
      } else {
        assert forall p | p in priceToIds && p < target :: p in below;
        var price := First(true, below);
        c := Some(price, First(false, priceToIds[price]));
      }
    }

    /** `find_closest_order`: the tracked order first in (distance to the target, price, id), over all
        64-bit prices; (-1, the least 64-bit number) if nothing is tracked. */
    method FindClosestOrder(target: Int64) returns (id: int, price: int)
      requires Valid()
      ensures idToInfo == map[] ==> id == -1 && price == INT64_MIN
      ensures idToInfo != map[] ==> IsClosest(idToInfo, target, id, price)
    {
      AgreeOnEmpty(Contents());
      if priceToIds == map[] {
        return -1, INT64_MIN;
      }
      if target in priceToIds && priceToIds[target] != {} {
        id := First(false, priceToIds[target]);
        assert InBucket(priceToIds, target, id) && Priced(idToInfo, target, id);
        forall k: Int64 | k in idToInfo && k != id ensures Closer(target, target, id, idToInfo[k].price, k) {
          assert Priced(idToInfo, idToInfo[k].price, k) && InBucket(priceToIds, idToInfo[k].price, k);
        }
        return id, target;
      }
      var ge := CandidateAbove(target);
      var le := CandidateBelow(target);
      if ge.Some? && le.None? {
        AboveIsClosest(Contents(), target, le, ge);
        return ge.id, ge.price;
      }
      if le.Some? && ge.None? {
        BelowIsClosest(Contents(), target, le, ge);
        return le.id, le.price;
      }
      NearestOfNone(Contents(), target, le, ge);
      var dGe := AbsDiff(ge.price, target);
      var dLe := AbsDiff(target, le.price);
      if dGe < dLe {
        AboveIsClosest(Contents(), target, le, ge);
        return ge.id, ge.price;
      }
      // At equal distances the candidates lie on both sides of the target, so the lower one is cheaper.
      BelowIsClosest(Contents(), target, le, ge);
      return le.id, le.price;
    }
  }

  lemma AgreeOnEmpty(s: State)
    requires Agree(s)
    ensures s.orders == map[] <==> s.buckets == map[]
  {
    if s.buckets != map[] {
      assert s.buckets.Keys != {};
      EmptyOrNot(s.buckets.Keys);
      var p: Int64 :| p in s.buckets;
      EmptyOrNot(s.buckets[p]);
      var id: Int64 :| id in s.buckets[p];
      assert InBucket(s.buckets, p, id) && Priced(s.orders, p, id);
    }
    if s.orders != map[] {
      assert s.orders.Keys != {};
      EmptyOrNot(s.orders.Keys);
      var id: Int64 :| id in s.orders;
      assert Priced(s.orders, s.orders[id].price, id) && InBucket(s.buckets, s.orders[id].price, id);
    }
  }

  lemma NearestOfNone(s: State, target: Int64, le: Candidate, ge: Candidate)
    requires s.buckets != map[] && target !in s.buckets
    requires NearestBelow(s, target, le) && NearestAbove(s, target, ge)
    ensures le.Some? || ge.Some?
  {
    assert s.buckets.Keys != {};
    EmptyOrNot(s.buckets.Keys);
  }
}
