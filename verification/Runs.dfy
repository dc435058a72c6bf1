/** Whole runs of book operations: what every run keeps, and what a run does to one order. */
module Runs {
  import opened KeyOrder
  import opened BookState
  import opened Folded
  import B = BookState
  import R = Removal
  import T = Ttl
  import M = Market
  import L = Limit
  import X = Exactness

  datatype Op =
    | Add(isBuy: bool, price: int, order: Order, postOnly: bool)
    | Remove(isBuy: bool, price: int, id: int)
    | Market(isBuy: bool, volume: real, takerIsAgent: bool)
    | Limit(isBuy: bool, volume: real, limit: int, room: int)
    | SetTtl(id: int, ttl: int)
    | Decay
    | CancelRandom(isBuy: bool, n: int, sample: seq<R.Item>)
    | Prune(now: int, maxAge: int)

  /** An accepted order starts without a time limit; a POST_ONLY order that would cross is rejected. */
  function Accept(s: Book, isBuy: bool, price: int, order: Order, postOnly: bool): Book {
    if postOnly && Crosses(s, isBuy, price) then s else B.Add(s, isBuy, price, order.(ttl := 0))
  }

  /** The effect of one operation; a buying taker hits the asks and a selling one the bids. */
  function Apply(s: Book, op: Op): Book {
    match op
    case Add(isBuy, price, order, postOnly) => Accept(s, isBuy, price, order, postOnly)
    case Remove(isBuy, price, id) => B.Remove(s, isBuy, price, id)
    case Market(isBuy, volume, takerIsAgent) => M.Walk(s, !isBuy, volume, takerIsAgent).book
    case Limit(isBuy, volume, limit, room) => L.LimitWalk(s, !isBuy, limit, volume, room).book
    case SetTtl(id, ttl) => T.SetTtl(s, id, ttl)
    case Decay => T.Decay(s)
    case CancelRandom(isBuy, n, sample) => R.RemoveAll(s, sample)
    case Prune(now, maxAge) => R.Prune(s, now, maxAge)
  }

  /** New orders carry ids that do not rest already, and a sample is one the reservoir can produce. */
  ghost predicate Legal(s: Book, op: Op) {
    match op
    case Add(_, _, order, _) => !Resting(s, order.id)
    case CancelRandom(isBuy, n, sample) => R.ValidSample(s, isBuy, n, sample)
    case _ => true
  }

  /** The operations that renumber the level they touch. */
  predicate Reindexes(op: Op) {
    !op.Limit? && !op.Prune?
  }

  function Run(s: Book, ops: seq<Op>): Book
    decreases |ops|
  {
    if ops == [] then s else Run(Apply(s, ops[0]), ops[1..])
  }

  ghost predicate LegalRun(s: Book, ops: seq<Op>)
    decreases |ops|
  {
    ops == [] || (Legal(s, ops[0]) && LegalRun(Apply(s, ops[0]), ops[1..]))
  }

  // ---------- index agreement ----------

  lemma StepKeeps(s: Book, op: Op)
    requires Sound(s) && Legal(s, op)
    ensures Sound(Apply(s, op))
    ensures Reindexes(op) && Exact(s) ==> Exact(Apply(s, op))
  {
    match op
    case Add(isBuy, price, order, _) => AddKeeps(s, isBuy, price, order.(ttl := 0));
    case Remove(isBuy, price, id) => RemoveKeeps(s, isBuy, price, id);
    case Market(isBuy, volume, takerIsAgent) => M.WalkKeeps(s, !isBuy, volume, takerIsAgent);
    case Limit(isBuy, volume, limit, room) => L.LimitWalkKeeps(s, !isBuy, limit, volume, room);
    case SetTtl(id, ttl) => T.SetTtlKeeps(s, id, ttl);
    case Decay => T.DecayEffect(s);
    case CancelRandom(isBuy, n, sample) => R.CancelEffect(s, isBuy, n, sample);
    case Prune(now, maxAge) => R.PruneKeeps(s, now, maxAge);
  }

  /** After every legal run each resting order is indexed at its own price and side, never below its true
      queue position, and no level is empty; and as long as only reindexing operations ran, the index holds
      exactly the resting ids at exactly their positions. */
  lemma {:induction false} RunKeeps(s: Book, ops: seq<Op>)
    requires Sound(s) && LegalRun(s, ops)
    ensures Sound(Run(s, ops))
    ensures Exact(s) && (forall i | 0 <= i < |ops| :: Reindexes(ops[i])) ==> Exact(Run(s, ops))
    decreases |ops|
  {
    if ops != [] {
      StepKeeps(s, ops[0]);
      RunKeeps(Apply(s, ops[0]), ops[1..]);
    }
  }

  /** The exact condition: pruning must find nothing to prune, limit matching must use up whole levels. */
  ghost predicate KeepsExactly(s: Book, op: Op) {
    match op
    case Limit(isBuy, volume, limit, room) => X.UsesUpLevels(s, !isBuy, limit, volume, room)
    case Prune(now, maxAge) => X.AllYounger(s, now, maxAge)
    case _ => true
  }

  /** A legal operation on an exactly indexed book leaves it so if and only if the condition holds before it. */
  lemma StepKeepsExactly(s: Book, op: Op)
    requires Exact(s) && Legal(s, op)
    ensures Exact(Apply(s, op)) <==> KeepsExactly(s, op)
  {
    StepKeeps(s, op);
    match op
    case Limit(isBuy, volume, limit, room) => X.LimitKeepsExactly(s, !isBuy, limit, volume, room);
    case Prune(now, maxAge) => X.PruneKeepsExactly(s, now, maxAge);
    case _ =>
  }

  ghost predicate ExactThroughout(s: Book, ops: seq<Op>)
    decreases |ops|
  {
    Exact(s) && (ops == [] || ExactThroughout(Apply(s, ops[0]), ops[1..]))
  }

  ghost predicate AllKeepExactly(s: Book, ops: seq<Op>)
    decreases |ops|
  {
    ops == [] || (KeepsExactly(s, ops[0]) && AllKeepExactly(Apply(s, ops[0]), ops[1..]))
  }

  /** Over a legal run of all eight operations the index is exact after every step if and only if each pruning
      and each limit match meets its condition when its turn comes. */
  lemma {:induction false} RunKeepsExactly(s: Book, ops: seq<Op>)
    requires Exact(s) && LegalRun(s, ops)
    ensures ExactThroughout(s, ops) <==> AllKeepExactly(s, ops)
    decreases |ops|
  {
    if ops != [] {
      var t := Apply(s, ops[0]);
      StepKeepsExactly(s, ops[0]);
      if Exact(t) {
        RunKeepsExactly(t, ops[1..]);
      } else {
        assert !ExactThroughout(t, ops[1..]);
      }
    }
  }

  lemma EmptyBookIsExact()
    ensures Exact(EMPTY)
  {
  }

  // ---------- one order over a run ----------

  /** The queue holds this order, up to the volume it has left. */
  ghost predicate Holds(queue: Queue, o: Order) {
    exists j :: 0 <= j < |queue| && queue[j].(volume := o.volume) == o
  }

  ghost predicate AllHeld(queue: Queue, orders: Queue) {
    forall k | 0 <= k < |orders| :: Holds(queue, orders[k])
  }

  /** Every order of t rests in s at the same place, the same but for its volume. */
  ghost predicate Shrinks(s: Book, t: Book) {
    forall side, p | p in t.Side(side) ::
      p in s.Side(side) && AllHeld(s.Side(side)[p], t.Side(side)[p])
  }

  lemma ShrinksSelf(s: Book)
    ensures Shrinks(s, s)
  {
    forall side, p, k | p in s.Side(side) && 0 <= k < |s.Side(side)[p]|
      ensures Holds(s.Side(side)[p], s.Side(side)[p][k])
    {
      var o := s.Side(side)[p][k];
      assert o.(volume := o.volume) == o;
    }
  }

  lemma ShrinksTransitive(s: Book, t: Book, u: Book)
    requires Shrinks(s, t) && Shrinks(t, u)
    ensures Shrinks(s, u)
  {
    forall side, p, k | p in u.Side(side) && 0 <= k < |u.Side(side)[p]|
      ensures p in s.Side(side) && Holds(s.Side(side)[p], u.Side(side)[p][k])
    {
      var o := u.Side(side)[p][k];
      assert AllHeld(t.Side(side)[p], u.Side(side)[p]) && AllHeld(s.Side(side)[p], t.Side(side)[p]);
      assert Holds(t.Side(side)[p], o);
      var j :| 0 <= j < |t.Side(side)[p]| && t.Side(side)[p][j].(volume := o.volume) == o;
      assert Holds(s.Side(side)[p], t.Side(side)[p][j]);
      var i :| 0 <= i < |s.Side(side)[p]| && s.Side(side)[p][i].(volume := t.Side(side)[p][j].volume) == t.Side(side)[p][j];
      assert s.Side(side)[p][i].(volume := o.volume) == o;
    }
  }

  const SHRINKING: int := 30

  /** Shrinking, folded for the inductions over a walk; see Folded. */
  ghost predicate ShrinksTo(s: Book, t: Book) {
    forall x {:trigger Open(x, SHRINKING)} :: Open(x, SHRINKING) ==> Shrinks(s, t)
  }

  lemma ShrinksToSelf(s: Book)
    ensures ShrinksTo(s, s)
  {
    ShrinksSelf(s);
  }

  lemma ShrinksToTransitive(s: Book, t: Book, u: Book)
    requires ShrinksTo(s, t) && ShrinksTo(t, u)
    ensures ShrinksTo(s, u)
  {
    assert Open(0, SHRINKING);
    ShrinksTransitive(s, t, u);
  }

  /** Replacing one queue by orders it held already. */
  lemma QueueShrinks(s: Book, hit: bool, price: int, queue: Queue, index: Index)
    requires price in s.Side(hit)
    requires AllHeld(s.Side(hit)[price], queue)
    ensures Shrinks(s, M.AfterQueue(s, hit, price, queue, index))
  {
    ShrinksSelf(s);
  }

  lemma SuffixShrinks(queue: Queue, n: nat, volume: real, rest: Queue, k: nat)
    requires n < |queue| && rest == [queue[n].(volume := volume)] + queue[n..][1..] && k < |rest|
    ensures Holds(queue, rest[k])
  {
    assert rest[k] == if k == 0 then queue[n].(volume := volume) else queue[n + k];
    assert queue[n + k].(volume := rest[k].volume) == rest[k];
  }

  lemma WalkQueueShrinks(price: int, queue: Queue, remain: real, takerIsAgent: bool)
    ensures var r := M.WalkQueue(price, queue, remain, takerIsAgent);
      AllHeld(queue, r.queue)
  {
    var r := M.WalkQueue(price, queue, remain, takerIsAgent);
    if r.queue != [] {
      M.WalkQueueShape(price, queue, remain, takerIsAgent);
      var volume :| r.queue == [queue[r.popped].(volume := volume)] + queue[r.popped..][1..];
      forall k | 0 <= k < |r.queue| ensures Holds(queue, r.queue[k]) {
        SuffixShrinks(queue, r.popped, volume, r.queue, k);
      }
    }
  }

  lemma LimitQueueShrinks(price: int, queue: Queue, remain: real, room: int)
    ensures var r := L.LimitQueue(price, queue, remain, room);
      AllHeld(queue, r.queue)
  {
    var r := L.LimitQueue(price, queue, remain, room);
    if r.queue != [] {
      L.LimitQueueShape(price, queue, remain, room);
      var volume :| r.queue == [queue[r.popped].(volume := volume)] + queue[r.popped..][1..];
      forall k | 0 <= k < |r.queue| ensures Holds(queue, r.queue[k]) {
        SuffixShrinks(queue, r.popped, volume, r.queue, k);
      }
    }
  }

  lemma LevelShrinks(s: Book, hit: bool, price: int, remain: real, takerIsAgent: bool)
    requires price in s.Side(hit)
    ensures var queue := s.Side(hit)[price];
      var r := M.WalkQueue(price, queue, remain, takerIsAgent);
      ShrinksTo(s, M.AfterQueue(s, hit, price, r.queue, M.PopIndex(s.index, queue, r.popped)))
  {
    var queue := s.Side(hit)[price];
    var r := M.WalkQueue(price, queue, remain, takerIsAgent);
    WalkQueueShrinks(price, queue, remain, takerIsAgent);
    QueueShrinks(s, hit, price, r.queue, M.PopIndex(s.index, queue, r.popped));
  }

  lemma {:induction false} WalkShrinks(s: Book, hit: bool, remain: real, takerIsAgent: bool)
    ensures ShrinksTo(s, M.Walk(s, hit, remain, takerIsAgent).book)
    decreases |s.Side(hit)|
  {
    if remain <= M.EPS || s.Side(hit) == map[] {
      ShrinksToSelf(s);
    } else {
      var price := Best(hit, s.Side(hit));
      LevelShrinks(s, hit, price, remain, takerIsAgent);
      var queue := s.Side(hit)[price];
      var r := M.WalkQueue(price, queue, remain, takerIsAgent);
      if r.queue == [] {
        var t := M.AfterQueue(s, hit, price, r.queue, M.PopIndex(s.index, queue, r.popped));
        M.FewerLevels(s.Side(hit), price);
        WalkShrinks(t, hit, r.remain, takerIsAgent);
        ShrinksToTransitive(s, t, M.Walk(t, hit, r.remain, takerIsAgent).book);
      }
    }
  }

  lemma LimitLevelShrinks(s: Book, hit: bool, price: int, remain: real, room: int)
    requires price in s.Side(hit)
    ensures var queue := s.Side(hit)[price];
      var r := L.LimitQueue(price, queue, remain, room);
      ShrinksTo(s, M.AfterQueue(s, hit, price, r.queue, L.Erased(s.index, queue[..r.popped])))
  {
    var queue := s.Side(hit)[price];
    var r := L.LimitQueue(price, queue, remain, room);
    LimitQueueShrinks(price, queue, remain, room);
    QueueShrinks(s, hit, price, r.queue, L.Erased(s.index, queue[..r.popped]));
  }

  /** One round of the limit walk: it ends in t, or goes on from t with what is left. */
  lemma LimitRoundShrinks(s: Book, hit: bool, limit: int, remain: real, room: int)
    returns (t: Book, left: real, space: int, ends: bool)
    requires remain > L.TINY && room > 0 && s.Side(hit) != map[] && !Before(hit, limit, Best(hit, s.Side(hit)))
    ensures ShrinksTo(s, t)
    ensures ends ==> L.LimitWalk(s, hit, limit, remain, room).book == t
    ensures !ends ==> |t.Side(hit)| < |s.Side(hit)|
    ensures !ends ==> L.LimitWalk(s, hit, limit, remain, room).book == L.LimitWalk(t, hit, limit, left, space).book
  {
    var price := Best(hit, s.Side(hit));
    var queue := s.Side(hit)[price];
    var r := L.LimitQueue(price, queue, remain, room);
    t, left, space := M.AfterQueue(s, hit, price, r.queue, L.Erased(s.index, queue[..r.popped])), r.remain, room - |r.trades|;
    ends := r.queue != [];
    L.LimitWalkRound(s, hit, limit, remain, room, price);
    LimitLevelShrinks(s, hit, price, remain, room);
    M.FewerLevels(s.Side(hit), price);
  }

  lemma {:induction false} LimitWalkShrinks(s: Book, hit: bool, limit: int, remain: real, room: int)
    ensures ShrinksTo(s, L.LimitWalk(s, hit, limit, remain, room).book)
    decreases |s.Side(hit)|
  {
    if remain <= L.TINY || room <= 0 || s.Side(hit) == map[] || Before(hit, limit, Best(hit, s.Side(hit))) {
      ShrinksToSelf(s);
    } else {
      var t, left, space, ends := LimitRoundShrinks(s, hit, limit, remain, room);
      if !ends {
        LimitWalkShrinks(t, hit, limit, left, space);
        ShrinksToTransitive(s, t, L.LimitWalk(t, hit, limit, left, space).book);
      }
    }
  }

  lemma DropIsHeld(queue: Queue, i: nat)
    requires i < |queue|
    ensures AllHeld(queue, Drop(queue, i)) && AllHeld(queue, queue)
  {
    RestOf(queue, i);
    forall j | 0 <= j < |queue| ensures Holds(queue, queue[j]) {
      assert queue[j].(volume := queue[j].volume) == queue[j];
    }
    forall k | 0 <= k < |Drop(queue, i)| ensures Holds(queue, Drop(queue, i)[k]) {
      assert Holds(queue, queue[if k < i then k else k + 1]);
    }
  }

  lemma RemoveAtShrinks(s: Book, isBuy: bool, price: int, i: nat)
    requires price in s.Side(isBuy) && i < |s.Side(isBuy)[price]|
    ensures ShrinksTo(s, RemoveAt(s, isBuy, price, i))
  {
    DropIsHeld(s.Side(isBuy)[price], i);
    QueueShrinks(s, isBuy, price, Drop(s.Side(isBuy)[price], i), RemoveAt(s, isBuy, price, i).index);
  }

  lemma KeptShrinks(s: Book, isBuy: bool, price: int)
    requires price in s.Side(isBuy)
    ensures ShrinksTo(s, s.WithSide(isBuy, Put(s.Side(isBuy), price, s.Side(isBuy)[price])))
  {
    var queue := s.Side(isBuy)[price];
    if queue != [] {
      DropIsHeld(queue, 0);
    }
    QueueShrinks(s, isBuy, price, queue, s.index);
    assert M.AfterQueue(s, isBuy, price, queue, s.index) == s.WithSide(isBuy, Put(s.Side(isBuy), price, queue));
  }

  lemma RemoveShrinks(s: Book, isBuy: bool, price: int, id: int)
    ensures ShrinksTo(s, B.Remove(s, isBuy, price, id))
  {
    if id < 0 || price !in s.Side(isBuy) {
      ShrinksToSelf(s);
    } else if FindId(s.Side(isBuy)[price], id) < |s.Side(isBuy)[price]| {
      RemoveAtShrinks(s, isBuy, price, FindId(s.Side(isBuy)[price], id));
    } else {
      KeptShrinks(s, isBuy, price);
    }
  }

  lemma {:induction false} RemoveAllShrinks(s: Book, items: seq<R.Item>)
    ensures ShrinksTo(s, R.RemoveAll(s, items))
    decreases |items|
  {
    if items == [] {
      ShrinksToSelf(s);
    } else {
      var t := B.Remove(s, items[0].isBuy, items[0].price, items[0].id);
      RemoveShrinks(s, items[0].isBuy, items[0].price, items[0].id);
      RemoveAllShrinks(t, items[1..]);
      ShrinksToTransitive(s, t, R.RemoveAll(t, items[1..]));
    }
  }

  lemma PruneShrinks(s: Book, now: int, maxAge: int)
    ensures Shrinks(s, R.Prune(s, now, maxAge))
  {
    var t := R.Prune(s, now, maxAge);
    forall side, p, k | p in t.Side(side) && 0 <= k < |t.Side(side)[p]|
      ensures p in s.Side(side) && Holds(s.Side(side)[p], t.Side(side)[p][k])
    {
      R.FilterKeepsOrder(s.Side(side)[p], R.Younger(now, maxAge), k);
      var o := t.Side(side)[p][k];
      var j :| k <= j < |s.Side(side)[p]| && 0 <= j && s.Side(side)[p][j] == o;
      assert s.Side(side)[p][j].(volume := o.volume) == o;
    }
  }

  /** Operations that neither add an order nor touch time-to-live only take orders or volume away. */
  lemma StepShrinks(s: Book, op: Op)
    requires !op.Add? && !op.SetTtl? && !op.Decay?
    ensures Shrinks(s, Apply(s, op))
  {
    assert Open(0, SHRINKING);
    match op
    case Remove(isBuy, price, id) => RemoveShrinks(s, isBuy, price, id);
    case Market(isBuy, volume, takerIsAgent) => WalkShrinks(s, !isBuy, volume, takerIsAgent);
    case Limit(isBuy, volume, limit, room) => LimitWalkShrinks(s, !isBuy, limit, volume, room);
    case CancelRandom(_, _, sample) => RemoveAllShrinks(s, sample);
    case Prune(now, maxAge) => PruneShrinks(s, now, maxAge);
  }

  /** One decay step of a counter: positive ones count down, others never change. */
  function Aged(ttl: int, steps: nat): int {
    if ttl > 0 then ttl - steps else ttl
  }

  predicate Leaves(op: Op, id: int) {
    match op
    case Add(_, _, order, _) => order.id != id
    case SetTtl(other, _) => other != id
    case _ => true
  }

  lemma DecayBack(s: Book, isBuy: bool, price: int, j: nat)
    requires Sound(s) && price in T.Decay(s).Side(isBuy) && j < |T.Decay(s).Side(isBuy)[price]|
    ensures var o := T.Decay(s).Side(isBuy)[price][j];
      exists before :: T.HasTtl(s, isBuy, price, o.id, before) && before != 1 && o.ttl == Aged(before, 1)
  {
    T.DecayEffect(s);
    var queue := s.Side(isBuy)[price];
    assert T.Decay(s).Side(isBuy) == T.Survivors(s.Side(isBuy));
    var i := T.SurvivorWas(queue, j);
    assert T.HasTtl(s, isBuy, price, queue[i].id, queue[i].ttl);
  }

  /** An order still resting after a step rested before it, at the same place, and its counter moved only
      if the step was a decay. */
  lemma StepBack(s: Book, op: Op, isBuy: bool, price: int, id: int, ttl: int)
    requires Sound(s) && Leaves(op, id) && T.HasTtl(Apply(s, op), isBuy, price, id, ttl)
    ensures exists before :: T.HasTtl(s, isBuy, price, id, before) &&
              if op.Decay? then before != 1 && ttl == Aged(before, 1) else ttl == before
  {
    var t := Apply(s, op);
    var j :| 0 <= j < |t.Side(isBuy)[price]| && t.Side(isBuy)[price][j].id == id && t.Side(isBuy)[price][j].ttl == ttl;
    if op.Decay? {
      DecayBack(s, isBuy, price, j);
    } else if op.SetTtl? {
      assert s.Side(isBuy)[price][j].id == id;
      assert T.HasTtl(s, isBuy, price, id, ttl);
    } else if op.Add? {
      assert j < |QueueAt(s.Side(isBuy), price)|;
      assert s.Side(isBuy)[price][j] == t.Side(isBuy)[price][j];
      assert T.HasTtl(s, isBuy, price, id, ttl);
    } else {
      StepShrinks(s, op);
      assert AllHeld(s.Side(isBuy)[price], t.Side(isBuy)[price]);
      assert Holds(s.Side(isBuy)[price], t.Side(isBuy)[price][j]);
      var o := t.Side(isBuy)[price][j];
      var i :| 0 <= i < |s.Side(isBuy)[price]| && s.Side(isBuy)[price][i].(volume := o.volume) == o;
      assert T.HasTtl(s, isBuy, price, id, ttl);
    }
  }

  function Decays(ops: seq<Op>): nat {
    if ops == [] then 0 else (if ops[0].Decay? then 1 else 0) + Decays(ops[1..])
  }

  /** If an order rests after a run that did not add it or set its counter, it rested at the same place
      before the run, and its counter went down by exactly the decays of the run. */
  lemma {:induction false} RunBack(s: Book, ops: seq<Op>, isBuy: bool, price: int, id: int, ttl: int)
    requires Sound(s) && LegalRun(s, ops) && (forall i | 0 <= i < |ops| :: Leaves(ops[i], id))
    requires T.HasTtl(Run(s, ops), isBuy, price, id, ttl)
    ensures exists before :: T.HasTtl(s, isBuy, price, id, before) && ttl == Aged(before, Decays(ops)) &&
              (before > 0 ==> ttl > 0)
    decreases |ops|
  {
    if ops == [] {
    } else {
      var t := Apply(s, ops[0]);
      StepKeeps(s, ops[0]);
      RunBack(t, ops[1..], isBuy, price, id, ttl);
      var middle :| T.HasTtl(t, isBuy, price, id, middle) && ttl == Aged(middle, Decays(ops[1..])) &&
        (middle > 0 ==> ttl > 0);
      StepBack(s, ops[0], isBuy, price, id, middle);
      var before :| T.HasTtl(s, isBuy, price, id, before) &&
        if ops[0].Decay? then before != 1 && middle == Aged(before, 1) else middle == before;
      assert T.HasTtl(s, isBuy, price, id, before);
    }
  }

  lemma OneTtl(s: Book, isBuy: bool, price: int, id: int, a: int, isBuy': bool, price': int, b: int)
    requires Sound(s) && T.HasTtl(s, isBuy, price, id, a) && T.HasTtl(s, isBuy', price', id, b)
    ensures isBuy == isBuy' && price == price' && a == b
  {
    var i :| 0 <= i < |s.Side(isBuy)[price]| && s.Side(isBuy)[price][i].id == id && s.Side(isBuy)[price][i].ttl == a;
    var j :| 0 <= j < |s.Side(isBuy')[price']| && s.Side(isBuy')[price'][j].id == id && s.Side(isBuy')[price'][j].ttl == b;
    T.OnePlace(s, isBuy, price, i, isBuy', price', j);
  }

  /** An order given `ttl` that is still resting after a run with D decay steps is listed for cancellation
      by a further decay step, and gone after it, if and only if ttl is positive and D + 1 equals it. */
  lemma CancelledOnExactlyItsStep(s: Book, ops: seq<Op>, isBuy: bool, price: int, id: OrderId, ttl: int, now: int)
    requires Sound(s) && LegalRun(s, ops) && (forall i | 0 <= i < |ops| :: Leaves(ops[i], id))
    requires T.HasTtl(s, isBuy, price, id, ttl) && T.HasTtl(Run(s, ops), isBuy, price, id, now)
    ensures R.Item(isBuy, price, id) in T.AllExpiring(Run(s, ops)) <==> ttl > 0 && Decays(ops) + 1 == ttl
    ensures !Resting(T.Decay(Run(s, ops)), id) <==> ttl > 0 && Decays(ops) + 1 == ttl
    ensures ttl > 0 ==> Decays(ops) < ttl
  {
    var t := Run(s, ops);
    RunKeeps(s, ops);
    RunBack(s, ops, isBuy, price, id, now);
    var before :| T.HasTtl(s, isBuy, price, id, before) && now == Aged(before, Decays(ops)) && (before > 0 ==> now > 0);
    OneTtl(s, isBuy, price, id, before, isBuy, price, ttl);
    T.ExpiringIsLastStep(t, R.Item(isBuy, price, id));
    if T.HasTtl(t, isBuy, price, id, 1) {
      OneTtl(t, isBuy, price, id, 1, isBuy, price, now);
    }
    T.DecayOfOne(t, isBuy, price, id, now);
    if now != 1 {
      var left := if now > 0 then now - 1 else now;
      var u := T.Decay(t);
      var j :| 0 <= j < |u.Side(isBuy)[price]| && u.Side(isBuy)[price][j].id == id && u.Side(isBuy)[price][j].ttl == left;
      assert RestingAt(u, isBuy, price, id);
    }
  }
}
