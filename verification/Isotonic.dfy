/** Isotonic calibration: the pool-adjacent-violators fit, the step function it stores, and the proof that
    this function has the least squared error among all nondecreasing functions of the score. */
module Isotonic {
  import opened Reals
  import opened Sorting

  datatype Point = Point(x: real, y: real)

  /** A score or label as it arrives; infinities and not-a-number are dropped before fitting. */
  datatype Number = Finite(value: real) | PlusInfinity | MinusInfinity | NotANumber

  /** A block of the stack: mean, weight, left and right score. */
  datatype Block = Block(mean: real, weight: nat, left: real, right: real)

  // ---------- loss ----------

  ghost predicate Nondecreasing(f: real -> real) {
    forall a, b | a <= b :: f(a) <= f(b)
  }

  function Square(a: real): real {
    a * a
  }

  function Loss(points: seq<Point>, f: real -> real): real {
    if points == [] then 0.0 else Square(points[0].y - f(points[0].x)) + Loss(points[1..], f)
  }

  lemma {:induction false} LossOfConcat(a: seq<Point>, b: seq<Point>, f: real -> real)
    ensures Loss(a + b, f) == Loss(a, f) + Loss(b, f)
  {
    if a == [] {
      assert a + b == b;
    } else {
      LossOfConcat(a[1..], b, f);
      assert (a + b)[1..] == a[1..] + b;
    }
  }

  // ---------- sorting by score ----------

  function Score(): Point -> real {
    (p: Point) => p.x
  }

  ghost predicate Ordered(s: seq<Point>) {
    forall i, j | 0 <= i < j < |s| :: s[i].x <= s[j].x
  }

  /** `x[argsort(x)]` with its labels. */
  function ByScore(points: seq<Point>): seq<Point> {
    Sort(points, Score())
  }

  lemma ByScoreIsOrdered(points: seq<Point>)
    ensures Ordered(ByScore(points)) && |ByScore(points)| == |points|
    ensures multiset(ByScore(points)) == multiset(points)
  {
    SortShape(points, Score());
  }

  lemma {:induction false} LossOfInsert(p: Point, s: seq<Point>, f: real -> real)
    ensures Loss(Insert(p, s, Score()), f) == Square(p.y - f(p.x)) + Loss(s, f)
  {
    if s == [] || p.x <= s[0].x {
      assert ([p] + s)[1..] == s;
    } else {
      LossOfInsert(p, s[1..], f);
      assert ([s[0]] + Insert(p, s[1..], Score()))[1..] == Insert(p, s[1..], Score());
    }
  }

  lemma {:induction false} LossOfSort(points: seq<Point>, f: real -> real)
    ensures Loss(ByScore(points), f) == Loss(points, f)
  {
    if points != [] {
      LossOfSort(points[1..], f);
      LossOfInsert(points[0], ByScore(points[1..]), f);
    }
  }

  // ---------- what a block says about the sorted points ----------

  /** How far the labels of s[a..c] lie above a constant, in sum. */
  function Excess(s: seq<Point>, a: int, c: int, mean: real): real
    requires 0 <= a <= c <= |s|
    decreases c
  {
    if c == a then 0.0 else Excess(s, a, c - 1, mean) + (s[c - 1].y - mean)
  }

  /** No two equal scores are separated at position c. */
  predicate Boundary(s: seq<Point>, c: nat)
    requires c <= |s|
  {
    c == 0 || c == |s| || s[c - 1].x < s[c].x
  }

  /** The block has the mean of s[a..e], it does not split equal scores at its ends, and no prefix of it that
      ends between different scores has a lower mean. */
  ghost predicate BlockOf(s: seq<Point>, a: int, e: int, b: Block) {
    && 0 <= a < e <= |s|
    && b.weight == e - a
    && b.left == s[a].x
    && b.right == s[e - 1].x
    && Boundary(s, a)
    && Boundary(s, e)
    && Excess(s, a, e, b.mean) == 0.0
    && forall c | a < c <= e && Boundary(s, c) :: Excess(s, a, c, b.mean) >= 0.0
  }

  /** The stack covers s[..n]. */
  ghost predicate Covers(s: seq<Point>, blocks: seq<Block>, n: int)
    decreases |blocks|
  {
    if blocks == [] then n == 0 else
      var b := blocks[|blocks| - 1];
      BlockOf(s, n - b.weight, n, b) && Covers(s, blocks[..|blocks| - 1], n - b.weight)
  }

  ghost predicate Ascending(blocks: seq<Block>) {
    forall i | 0 < i < |blocks| :: blocks[i - 1].mean <= blocks[i].mean
  }

  function MeanOf(m1: real, w1: real, m2: real, w2: real): real
    requires w1 + w2 > 0.0
  {
    (m1 * w1 + m2 * w2) / (w1 + w2)
  }

  function Merged(b1: Block, b2: Block): Block
    requires b1.weight > 0 && b2.weight > 0
  {
    Block(MeanOf(b1.mean, b1.weight as real, b2.mean, b2.weight as real), b1.weight + b2.weight, b1.left, b2.right)
  }

  lemma {:induction false} ExcessJoins(s: seq<Point>, a: int, c: int, e: int, mean: real)
    requires 0 <= a <= c <= e <= |s|
    ensures Excess(s, a, e, mean) == Excess(s, a, c, mean) + Excess(s, c, e, mean)
    decreases e
  {
    if e > c {
      ExcessJoins(s, a, c, e - 1, mean);
    }
  }

  lemma OneMore(x: real, k: int)
    ensures Product(x, (k + 1) as real) == Product(x, k as real) + x
  {
    assert (k + 1) as real == k as real + 1.0;
  }

  lemma ZeroTimes(a: real, b: real)
    requires a == 0.0 || b == 0.0
    ensures Product(a, b) == 0.0
  {
  }

  lemma ProductGrows(a: real, b: real, k: real)
    requires a <= b && k >= 0.0
    ensures Product(a, k) <= Product(b, k)
  {
    assert (b - a) * k >= 0.0;
  }

  lemma LongerProduct(x: real, k: real, w: real)
    requires x >= 0.0 && k <= w
    ensures Product(x, k) <= Product(x, w)
  {
    assert x * (w - k) >= 0.0;
  }

  /** Measuring from another constant moves the excess in proportion to the number of points. */
  lemma {:induction false} ExcessShifts(s: seq<Point>, a: int, c: int, mean: real, other: real)
    requires 0 <= a <= c <= |s|
    ensures Excess(s, a, c, mean) == Excess(s, a, c, other) - Product(mean - other, (c - a) as real)
    decreases c
  {
    if c > a {
      ExcessShifts(s, a, c - 1, mean, other);
      OneMore(mean - other, c - 1 - a);
    } else {
      ZeroTimes(mean - other, 0.0);
    }
  }

  lemma SignOfProduct(d: real, w: real)
    requires w > 0.0
    ensures d > 0.0 ==> Product(d, w) > 0.0
    ensures d < 0.0 ==> Product(d, w) < 0.0
  {
  }

  /** The merged mean lies between the two, at distances that balance their weights. */
  lemma WeightedMean(m1: real, w1: real, m2: real, w2: real)
    requires w1 > 0.0 && w2 > 0.0 && m1 > m2
    ensures var m := MeanOf(m1, w1, m2, w2);
      Product(m - m1, w1) + Product(m - m2, w2) == 0.0 && m2 <= m <= m1
  {
    var m := MeanOf(m1, w1, m2, w2);
    QuotientTimes(m1 * w1 + m2 * w2, w1 + w2, m);
    Balance(m1, w1, m2, w2, m);
    SignOfProduct(m - m1, w1);
    SignOfProduct(m - m2, w2);
  }

  lemma QuotientTimes(sum: real, w: real, m: real)
    requires w > 0.0 && m == sum / w
    ensures m * w == sum
  {
  }

  lemma Balance(m1: real, w1: real, m2: real, w2: real, m: real)
    requires m * (w1 + w2) == m1 * w1 + m2 * w2
    ensures Product(m - m1, w1) + Product(m - m2, w2) == 0.0
  {
  }

  lemma PrefixInFirst(s: seq<Point>, a: int, c: int, b: Block, m: real, d: int)
    requires BlockOf(s, a, c, b) && m <= b.mean && a < d <= c && Boundary(s, d)
    ensures Excess(s, a, d, m) >= 0.0
  {
    ExcessShifts(s, a, d, m, b.mean);
    ProductGrows(m - b.mean, 0.0, (d - a) as real);
    ZeroTimes(0.0, (d - a) as real);
  }

  lemma PrefixInSecond(s: seq<Point>, c: int, e: int, b: Block, m: real, d: int)
    requires BlockOf(s, c, e, b) && m >= b.mean && c < d <= e && Boundary(s, d)
    ensures Excess(s, c, d, m) >= -Product(m - b.mean, b.weight as real)
    ensures d == e ==> Excess(s, c, d, m) == -Product(m - b.mean, b.weight as real)
  {
    ExcessShifts(s, c, d, m, b.mean);
    LongerProduct(m - b.mean, (d - c) as real, b.weight as real);
  }

  /** Pooling two adjacent violators gives a block again. */
  lemma MergeIsBlock(s: seq<Point>, a: int, c: int, e: int, b1: Block, b2: Block)
    requires BlockOf(s, a, c, b1) && BlockOf(s, c, e, b2) && b1.mean > b2.mean
    ensures BlockOf(s, a, e, Merged(b1, b2))
  {
    WeightedMean(b1.mean, b1.weight as real, b2.mean, b2.weight as real);
    PooledBlock(s, a, c, e, b1, b2, Merged(b1, b2));
  }

  lemma PooledBlock(s: seq<Point>, a: int, c: int, e: int, b1: Block, b2: Block, b: Block)
    requires BlockOf(s, a, c, b1) && BlockOf(s, c, e, b2) && b2.mean <= b.mean <= b1.mean
    requires Product(b.mean - b1.mean, b1.weight as real) + Product(b.mean - b2.mean, b2.weight as real) == 0.0
    requires b.weight == b1.weight + b2.weight && b.left == b1.left && b.right == b2.right
    ensures BlockOf(s, a, e, b)
  {
    ExcessShifts(s, a, c, b.mean, b1.mean);
    forall d | a < d <= e && Boundary(s, d)
      ensures Excess(s, a, d, b.mean) >= 0.0 && (d == e ==> Excess(s, a, d, b.mean) == 0.0)
    {
      if d <= c {
        PrefixInFirst(s, a, c, b1, b.mean, d);
      } else {
        ExcessJoins(s, a, c, d, b.mean);
        PrefixInSecond(s, c, e, b2, b.mean, d);
      }
    }
  }

  lemma MergeCovers(s: seq<Point>, blocks: seq<Block>, n: int)
    requires Covers(s, blocks, n) && |blocks| >= 2 && blocks[|blocks| - 2].mean > blocks[|blocks| - 1].mean
    requires Ascending(blocks[..|blocks| - 1])
    ensures blocks[|blocks| - 2].weight > 0 && blocks[|blocks| - 1].weight > 0
    ensures var merged := blocks[..|blocks| - 2] + [Merged(blocks[|blocks| - 2], blocks[|blocks| - 1])];
      Covers(s, merged, n) && Ascending(merged[..|merged| - 1])
  {
    var b1, b2 := blocks[|blocks| - 2], blocks[|blocks| - 1];
    var rest := blocks[..|blocks| - 2];
    assert blocks[..|blocks| - 1][..|blocks| - 2] == rest;
    MergeIsBlock(s, n - b2.weight - b1.weight, n - b2.weight, n, b1, b2);
    assert (rest + [Merged(b1, b2)])[..|rest|] == rest;
    assert forall k | 0 <= k < |rest| :: rest[k] == blocks[..|blocks| - 1][k];
  }

  // ---------- optimality on one block ----------

  /** Sum of the products of both deviations from a constant: of the labels and of f. */
  function Cross(p: seq<Point>, mean: real, f: real -> real): real {
    if p == [] then 0.0 else Product(p[0].y - mean, f(p[0].x) - mean) + Cross(p[1..], mean, f)
  }

  /** Squared distance of f from the constant mean at the points. */
  function Spread(p: seq<Point>, mean: real, f: real -> real): real {
    if p == [] then 0.0 else Square(mean - f(p[0].x)) + Spread(p[1..], mean, f)
  }

  function Flat(mean: real): real -> real {
    (x: real) => mean
  }

  lemma SplitStep(y: real, m: real, z: real)
    ensures Square(y - z) == Square(y - m) - 2.0 * Product(y - m, z - m) + Square(m - z)
  {
  }

  lemma {:induction false} LossSplit(p: seq<Point>, mean: real, f: real -> real)
    ensures Loss(p, f) == Loss(p, Flat(mean)) - 2.0 * Cross(p, mean, f) + Spread(p, mean, f)
  {
    if p != [] {
      LossSplit(p[1..], mean, f);
      SplitStep(p[0].y, mean, f(p[0].x));
    }
  }

  /** One step of summation by parts. */
  lemma OnePart(cross: real, total: real, here: real, next: real, more: real)
    requires cross <= Product(total, here)
    requires here == next || (here <= next && total >= 0.0)
    ensures cross + Product(more, next) <= Product(total + more, next)
  {
    if here != next {
      LongerProduct(total, here, next);
    }
    SumOfProducts(total, more, next);
  }

  lemma SumOfProducts(a: real, b: real, k: real)
    ensures Product(a + b, k) == Product(a, k) + Product(b, k)
  {
  }

  /** Summation by parts: if every prefix that ends at a boundary of the scores has labels at or above
      the constant, the products with a nondecreasing f sum up to at most the total times the last one. */
  lemma {:induction false} CrossBound(s: seq<Point>, a: nat, c: nat, mean: real, f: real -> real)
    requires Ordered(s) && Nondecreasing(f) && a < c <= |s| && Boundary(s, a)
    requires forall d | a < d <= c && Boundary(s, d) :: Excess(s, a, d, mean) >= 0.0
    ensures CrossUpTo(s, a, c, mean, f) <= Product(Excess(s, a, c, mean), f(s[c - 1].x) - mean)
    decreases c
  {
    var d := c - 1;
    if d == a {
      assert CrossUpTo(s, a, d, mean, f) == 0.0 && Excess(s, a, d, mean) == 0.0;
      ZeroTimes(0.0, f(s[d].x) - mean);
      OnePart(0.0, 0.0, f(s[d].x) - mean, f(s[d].x) - mean, s[d].y - mean);
    } else {
      CrossBound(s, a, d, mean, f);
      if !Boundary(s, d) {
        assert s[d - 1].x == s[d].x;
      }
      assert f(s[d - 1].x) <= f(s[d].x);
      OnePart(CrossUpTo(s, a, d, mean, f), Excess(s, a, d, mean), f(s[d - 1].x) - mean, f(s[d].x) - mean, s[d].y - mean);
    }
  }

  function CrossUpTo(s: seq<Point>, a: nat, c: nat, mean: real, f: real -> real): real
    requires a <= c <= |s|
    decreases c
  {
    if c == a then 0.0 else CrossUpTo(s, a, c - 1, mean, f) + Product(s[c - 1].y - mean, f(s[c - 1].x) - mean)
  }

  lemma {:induction false} CrossOfSlice(s: seq<Point>, a: nat, c: nat, mean: real, f: real -> real)
    requires a <= c <= |s|
    ensures Cross(s[a..c], mean, f) == CrossUpTo(s, a, c, mean, f)
    decreases c
  {
    if c > a {
      CrossOfSlice(s, a, c - 1, mean, f);
      assert s[a..c] == s[a..c - 1] + [s[c - 1]];
      CrossOfSnoc(s[a..c - 1], s[c - 1], mean, f);
    }
  }

  lemma {:induction false} CrossOfSnoc(p: seq<Point>, q: Point, mean: real, f: real -> real)
    ensures Cross(p + [q], mean, f) == Cross(p, mean, f) + Product(q.y - mean, f(q.x) - mean)
  {
    if p == [] {
      assert [] + [q] == [q] && [q][1..] == [];
    } else {
      CrossOfSnoc(p[1..], q, mean, f);
      assert (p + [q])[1..] == p[1..] + [q];
    }
  }

  lemma BlockCross(s: seq<Point>, a: nat, e: nat, b: Block, f: real -> real)
    requires Ordered(s) && Nondecreasing(f) && BlockOf(s, a, e, b)
    ensures Cross(s[a..e], b.mean, f) <= 0.0
  {
    CrossOfSlice(s, a, e, b.mean, f);
    CrossBound(s, a, e, b.mean, f);
    ZeroTimes(Excess(s, a, e, b.mean), f(s[e - 1].x) - b.mean);
  }

  /** On the points of a block a nondecreasing function loses at least as much as the block's mean, and
      more by its squared distance from it. */
  lemma BlockIsBest(s: seq<Point>, a: nat, e: nat, b: Block, f: real -> real)
    requires Ordered(s) && Nondecreasing(f) && BlockOf(s, a, e, b)
    ensures Loss(s[a..e], f) >= Loss(s[a..e], Flat(b.mean)) + Spread(s[a..e], b.mean, f)
  {
    LossSplit(s[a..e], b.mean, f);
    BlockCross(s, a, e, b, f);
  }

  // ---------- the step function ----------

  /** `np.searchsorted(xt, x, side="left")`: the first threshold that is not below x. */
  function SearchLeft(xt: seq<real>, x: real): (j: nat)
    ensures j <= |xt|
    ensures forall i | 0 <= i < j :: xt[i] < x
    ensures j < |xt| ==> xt[j] >= x
  {
    if xt == [] || xt[0] >= x then 0 else 1 + SearchLeft(xt[1..], x)
  }

  function PredictOne(xt: seq<real>, yv: seq<real>, x: real): real
    requires |xt| == |yv|
  {
    if xt == [] then 0.5 else
      var j := SearchLeft(xt, x);
      if j >= |xt| then yv[|yv| - 1] else yv[j]
  }

  function Step(xt: seq<real>, yv: seq<real>): real -> real
    requires |xt| == |yv|
  {
    (x: real) => PredictOne(xt, yv, x)
  }

  function Rights(blocks: seq<Block>): (r: seq<real>)
    ensures |r| == |blocks| && forall i | 0 <= i < |r| :: r[i] == blocks[i].right
  {
    seq(|blocks|, i requires 0 <= i < |blocks| => blocks[i].right)
  }

  function Means(blocks: seq<Block>): (r: seq<real>)
    ensures |r| == |blocks| && forall i | 0 <= i < |r| :: r[i] == blocks[i].mean
  {
    seq(|blocks|, i requires 0 <= i < |blocks| => blocks[i].mean)
  }

  function StepOf(blocks: seq<Block>): real -> real {
    Step(Rights(blocks), Means(blocks))
  }

  lemma {:induction false} AscendingMeans(blocks: seq<Block>, i: nat, j: nat)
    requires Ascending(blocks) && i <= j < |blocks|
    ensures blocks[i].mean <= blocks[j].mean
    decreases j
  {
    if i < j {
      AscendingMeans(blocks, i, j - 1);
    }
  }

  lemma {:induction false} SearchGrows(xt: seq<real>, a: real, b: real)
    requires a <= b
    ensures SearchLeft(xt, a) <= SearchLeft(xt, b)
  {
    if xt != [] && xt[0] < a {
      SearchGrows(xt[1..], a, b);
    }
  }

  lemma LookupIs(blocks: seq<Block>, x: real)
    requires blocks != []
    ensures var j := SearchLeft(Rights(blocks), x);
      StepOf(blocks)(x) == blocks[if j < |blocks| then j else |blocks| - 1].mean
  {
  }

  lemma StepGrows(blocks: seq<Block>, a: real, b: real)
    requires Ascending(blocks) && a <= b
    ensures StepOf(blocks)(a) <= StepOf(blocks)(b)
  {
    if blocks != [] {
      var i, j, last := SearchLeft(Rights(blocks), a), SearchLeft(Rights(blocks), b), |blocks| - 1;
      SearchGrows(Rights(blocks), a, b);
      LookupIs(blocks, a);
      LookupIs(blocks, b);
      AscendingMeans(blocks, if i < last then i else last, if j < last then j else last);
    }
  }

  /** With ascending means the step function is nondecreasing over all scores, not only the fitted ones. */
  lemma StepIsNondecreasing(blocks: seq<Block>)
    requires Ascending(blocks)
    ensures Nondecreasing(StepOf(blocks))
  {
    forall a, b | a <= b ensures StepOf(blocks)(a) <= StepOf(blocks)(b) {
      StepGrows(blocks, a, b);
    }
  }

  /** Where the i-th block of a stack begins. */
  function Start(blocks: seq<Block>, i: nat): nat
    requires i <= |blocks|
  {
    if i == 0 then 0 else Start(blocks, i - 1) + blocks[i - 1].weight
  }

  lemma {:induction false} StartOfPrefix(blocks: seq<Block>, m: nat, i: nat)
    requires i <= m <= |blocks|
    ensures Start(blocks[..m], i) == Start(blocks, i)
    decreases i
  {
    if i > 0 {
      StartOfPrefix(blocks, m, i - 1);
    }
  }

  lemma {:induction false} CoversAt(s: seq<Point>, blocks: seq<Block>, n: int, i: nat)
    requires Covers(s, blocks, n) && i < |blocks|
    ensures BlockOf(s, Start(blocks, i), Start(blocks, i + 1), blocks[i])
    ensures Start(blocks, |blocks|) == n
    decreases |blocks|
  {
    var m := |blocks| - 1;
    StartOfPrefix(blocks, m, m);
    if m > 0 {
      CoversAt(s, blocks[..m], n - blocks[m].weight, if i < m then i else m - 1);
      if i < m {
        StartOfPrefix(blocks, m, i);
        StartOfPrefix(blocks, m, i + 1);
      }
    }
  }

  lemma {:induction false} CoversStart(s: seq<Point>, blocks: seq<Block>, n: int)
    requires Covers(s, blocks, n)
    ensures 0 <= n <= |s| && Start(blocks, |blocks|) == n
    ensures blocks != [] ==> n > 0
  {
    if blocks != [] {
      CoversAt(s, blocks, n, 0);
    }
  }

  lemma RightsBefore(s: seq<Point>, blocks: seq<Block>, n: int, i: nat, j: nat)
    requires Ordered(s) && Covers(s, blocks, n) && i < j < |blocks|
    ensures blocks[i].right < blocks[j].left
    decreases j - i
  {
    CoversAt(s, blocks, n, i);
    CoversAt(s, blocks, n, j);
    CoversAt(s, blocks, n, i + 1);
    var c := Start(blocks, i + 1);
    assert s[c - 1].x < s[c].x;
    StartGrows(blocks, i + 1, j);
    assert s[c].x <= s[Start(blocks, j)].x;
  }

  lemma {:induction false} RightsIncrease(s: seq<Point>, blocks: seq<Block>)
    requires Ordered(s) && Covers(s, blocks, |s|)
    ensures Increasing(Rights(blocks))
  {
    forall i: nat, j: nat | i < j < |blocks| ensures Rights(blocks)[i] < Rights(blocks)[j] {
      RightsBefore(s, blocks, |s|, i, j);
      CoversAt(s, blocks, |s|, j);
    }
  }

  lemma {:induction false} StartGrows(blocks: seq<Block>, i: nat, j: nat)
    requires i <= j <= |blocks|
    ensures Start(blocks, i) <= Start(blocks, j)
    decreases j
  {
    if i < j {
      StartGrows(blocks, i, j - 1);
    }
  }

  /** A training score is looked up in the block that holds it. */
  lemma LookupInBlock(s: seq<Point>, blocks: seq<Block>, n: int, i: nat, k: nat)
    requires Ordered(s) && Covers(s, blocks, n) && i < |blocks|
    requires Start(blocks, i) <= k < Start(blocks, i + 1) <= |s|
    ensures StepOf(blocks)(s[k].x) == blocks[i].mean
  {
    CoversAt(s, blocks, n, i);
    var xt := Rights(blocks);
    assert blocks[i].left <= s[k].x <= blocks[i].right;
    forall j | 0 <= j < i ensures xt[j] < s[k].x {
      RightsBefore(s, blocks, n, j, i);
    }
    assert SearchLeft(xt, s[k].x) == i;
  }

  // ---------- optimality of the whole stack ----------

  /** Squared distance of two functions at the points. */
  function Distance(points: seq<Point>, g: real -> real, f: real -> real): real {
    if points == [] then 0.0 else Square(g(points[0].x) - f(points[0].x)) + Distance(points[1..], g, f)
  }

  lemma {:induction false} DistanceOfConcat(a: seq<Point>, b: seq<Point>, g: real -> real, f: real -> real)
    ensures Distance(a + b, g, f) == Distance(a, g, f) + Distance(b, g, f)
  {
    if a == [] {
      assert a + b == b;
    } else {
      DistanceOfConcat(a[1..], b, g, f);
      assert (a + b)[1..] == a[1..] + b;
    }
  }

  lemma {:induction false} DistanceOfInsert(p: Point, s: seq<Point>, g: real -> real, f: real -> real)
    ensures Distance(Insert(p, s, Score()), g, f) == Square(g(p.x) - f(p.x)) + Distance(s, g, f)
  {
    if s == [] || p.x <= s[0].x {
      assert ([p] + s)[1..] == s;
    } else {
      DistanceOfInsert(p, s[1..], g, f);
      assert ([s[0]] + Insert(p, s[1..], Score()))[1..] == Insert(p, s[1..], Score());
    }
  }

  lemma {:induction false} DistanceOfSort(points: seq<Point>, g: real -> real, f: real -> real)
    ensures Distance(ByScore(points), g, f) == Distance(points, g, f)
  {
    if points != [] {
      DistanceOfSort(points[1..], g, f);
      DistanceOfInsert(points[0], ByScore(points[1..]), g, f);
    }
  }

  lemma QuotientSign(s: real, d: real)
    requires d > 0.0
    ensures s <= 0.0 ==> s / d <= 0.0
    ensures Square(d) / d == d
  {
  }

  lemma SquareOfOpposite(d: real)
    ensures Square(-d) == Square(d)
  {
  }

  lemma SquareIsPositive(d: real)
    ensures Square(d) >= 0.0 && (d != 0.0 ==> Square(d) > 0.0)
  {
    if d > 0.0 {
      QuotientSign(Square(d), d);
    } else if d < 0.0 {
      QuotientSign(Square(-d), -d);
      SquareOfOpposite(d);
    } else {
      assert Square(0.0) == 0.0;
    }
  }

  lemma {:induction false} DistanceIsZero(points: seq<Point>, g: real -> real, f: real -> real)
    ensures Distance(points, g, f) >= 0.0
    ensures Distance(points, g, f) <= 0.0 ==> forall i | 0 <= i < |points| :: f(points[i].x) == g(points[i].x)
  {
    if points != [] {
      DistanceIsZero(points[1..], g, f);
      var d := g(points[0].x) - f(points[0].x);
      SquareIsPositive(d);
      assert points == [points[0]] + points[1..];
    }
  }

  lemma {:induction false} ConstantOn(p: seq<Point>, mean: real, g: real -> real, f: real -> real)
    requires forall i | 0 <= i < |p| :: g(p[i].x) == mean
    ensures Loss(p, g) == Loss(p, Flat(mean))
    ensures Distance(p, g, f) == Spread(p, mean, f)
  {
    if p != [] {
      ConstantOn(p[1..], mean, g, f);
    }
  }

  ghost predicate InBlock(blocks: seq<Block>, i: nat, k: nat) {
    i < |blocks| && Start(blocks, i) <= k < Start(blocks, i + 1)
  }

  ghost predicate AgreesWith(s: seq<Point>, blocks: seq<Block>, n: int, g: real -> real)
    requires n <= |s|
  {
    forall i: nat, k: nat | i < |blocks| && InBlock(blocks, i, k) && k < n :: g(s[k].x) == blocks[i].mean
  }

  lemma {:induction false} StackIsBest(s: seq<Point>, blocks: seq<Block>, n: int, g: real -> real, f: real -> real)
    requires Ordered(s) && Nondecreasing(f) && Covers(s, blocks, n) && 0 <= n <= |s| && AgreesWith(s, blocks, n, g)
    ensures Loss(s[..n], f) >= Loss(s[..n], g) + Distance(s[..n], g, f)
    decreases |blocks|
  {
    if blocks != [] {
      var m := |blocks| - 1;
      var c := n - blocks[m].weight;
      AgreesBelow(s, blocks, n, g);
      StackIsBest(s, blocks[..m], c, g, f);
      AgreesLast(s, blocks, n, g);
      LastBlockIsBest(s, c, n, blocks[m], g, f);
    }
  }

  lemma AgreesBelow(s: seq<Point>, blocks: seq<Block>, n: int, g: real -> real)
    requires blocks != [] && n <= |s| && AgreesWith(s, blocks, n, g)
    ensures AgreesWith(s, blocks[..|blocks| - 1], n - blocks[|blocks| - 1].weight, g)
  {
    var m := |blocks| - 1;
    forall i: nat, k: nat | i < m && InBlock(blocks[..m], i, k) && k < n - blocks[m].weight
      ensures g(s[k].x) == blocks[..m][i].mean
    {
      StartOfPrefix(blocks, m, i);
      StartOfPrefix(blocks, m, i + 1);
      assert InBlock(blocks, i, k);
    }
  }

  lemma LastBlockSpans(s: seq<Point>, blocks: seq<Block>, n: int, k: nat)
    requires blocks != [] && Covers(s, blocks, n)
    ensures 0 <= n - blocks[|blocks| - 1].weight && n <= |s|
    ensures n - blocks[|blocks| - 1].weight <= k < n ==> InBlock(blocks, |blocks| - 1, k)
  {
    var m := |blocks| - 1;
    CoversStart(s, blocks, n);
    CoversStart(s, blocks[..m], n - blocks[m].weight);
    StartOfPrefix(blocks, m, m);
  }

  lemma AgreesLast(s: seq<Point>, blocks: seq<Block>, n: int, g: real -> real)
    requires blocks != [] && Covers(s, blocks, n) && n <= |s| && AgreesWith(s, blocks, n, g)
    ensures 0 <= n - blocks[|blocks| - 1].weight
    ensures forall k: nat | n - blocks[|blocks| - 1].weight <= k < n :: g(s[k].x) == blocks[|blocks| - 1].mean
  {
    LastBlockSpans(s, blocks, n, 0);
    forall k: nat | n - blocks[|blocks| - 1].weight <= k < n ensures g(s[k].x) == blocks[|blocks| - 1].mean {
      LastBlockSpans(s, blocks, n, k);
    }
  }

  lemma LastBlockIsBest(s: seq<Point>, c: nat, n: nat, b: Block, g: real -> real, f: real -> real)
    requires Ordered(s) && Nondecreasing(f) && BlockOf(s, c, n, b)
    requires forall k | c <= k < n :: g(s[k].x) == b.mean
    requires Loss(s[..c], f) >= Loss(s[..c], g) + Distance(s[..c], g, f)
    ensures Loss(s[..n], f) >= Loss(s[..n], g) + Distance(s[..n], g, f)
  {
    BlockIsBest(s, c, n, b, f);
    ConstantOn(s[c..n], b.mean, g, f);
    assert s[..n] == s[..c] + s[c..n];
    LossOfConcat(s[..c], s[c..n], f);
    LossOfConcat(s[..c], s[c..n], g);
    DistanceOfConcat(s[..c], s[c..n], g, f);
  }

  /** The step function of a stack that covers the sorted points loses, at every set of points, less than
      any nondecreasing function f by at least its squared distance from f. */
  lemma FitIsOptimal(points: seq<Point>, blocks: seq<Block>, f: real -> real)
    requires Covers(ByScore(points), blocks, |points|) && Nondecreasing(f)
    ensures Loss(points, f) >= Loss(points, StepOf(blocks)) + Distance(points, StepOf(blocks), f)
  {
    var s, g := ByScore(points), StepOf(blocks);
    ByScoreIsOrdered(points);
    forall i: nat, k: nat | i < |blocks| && InBlock(blocks, i, k) && k < |s|
      ensures g(s[k].x) == blocks[i].mean
    {
      CoversAt(s, blocks, |s|, i);
      LookupInBlock(s, blocks, |s|, i, k);
    }
    StackIsBest(s, blocks, |s|, g, f);
    assert s[..|s|] == s;
    LossOfSort(points, f);
    LossOfSort(points, g);
    DistanceOfSort(points, g, f);
  }

  /** The optimum is unique where there is data: a nondecreasing function that loses no more than the fit
      has the fit's value at every training score. */
  lemma OptimumIsUnique(points: seq<Point>, blocks: seq<Block>, f: real -> real, i: nat)
    requires Covers(ByScore(points), blocks, |points|) && Nondecreasing(f) && i < |points|
    requires Loss(points, f) <= Loss(points, StepOf(blocks))
    ensures f(points[i].x) == StepOf(blocks)(points[i].x)
  {
    FitIsOptimal(points, blocks, f);
    DistanceIsZero(points, StepOf(blocks), f);
  }

  // ---------- the calibrator ----------

  function Clean(scores: seq<Number>, labels: seq<Number>): seq<Point>
    requires |scores| == |labels|
  {
    if scores == [] then []
    else
      (if scores[0].Finite? && labels[0].Finite? then [Point(scores[0].value, labels[0].value)] else [])
      + Clean(scores[1..], labels[1..])
  }

  /** Cleaning looks at one position at a time and keeps the order of what it keeps. */
  lemma {:induction false} CleanInParts(scores: seq<Number>, labels: seq<Number>, n: nat)
    requires n <= |scores| == |labels|
    ensures Clean(scores, labels) == Clean(scores[..n], labels[..n]) + Clean(scores[n..], labels[n..])
    ensures n < |scores| ==>
      Clean(scores[n..n + 1], labels[n..n + 1]) ==
      if scores[n].Finite? && labels[n].Finite? then [Point(scores[n].value, labels[n].value)] else []
  {
    if n == 0 {
      assert scores[0..] == scores && labels[0..] == labels;
    } else {
      CleanInParts(scores[1..], labels[1..], n - 1);
      assert scores[..n][1..] == scores[1..][..n - 1] && labels[..n][1..] == labels[1..][..n - 1];
      assert scores[1..][n - 1..] == scores[n..] && labels[1..][n - 1..] == labels[n..];
    }
  }

  /** The next threshold, if there is one, is greater. */
  predicate EndsRun(xs: seq<real>, i: nat)
    requires i < |xs|
  {
    i + 1 == |xs| || xs[i + 1] > xs[i]
  }

  /** What a list has at those of the first n positions at which a run of thresholds ends. */
  function AtRunEnds(s: seq<real>, xs: seq<real>, n: nat): (r: seq<real>)
    requires n <= |s| == |xs|
    ensures |r| <= n && (n == |xs| > 0 ==> r != [])
  {
    if n == 0 then [] else
      AtRunEnds(s, xs, n - 1) + (if EndsRun(xs, n - 1) then [s[n - 1]] else [])
  }

  lemma {:induction false} KeptTogether(xs: seq<real>, ys: seq<real>, n: nat)
    requires n <= |xs| == |ys|
    ensures |AtRunEnds(xs, xs, n)| == |AtRunEnds(ys, xs, n)|
  {
    if n > 0 {
      KeptTogether(xs, ys, n - 1);
    }
  }

  /** The end of each run is kept, threshold and value together. */
  lemma {:induction false} RunEndIsKept(xs: seq<real>, ys: seq<real>, n: nat, i: nat) returns (k: nat)
    requires i < n <= |xs| == |ys| && EndsRun(xs, i)
    ensures k < |AtRunEnds(xs, xs, n)| == |AtRunEnds(ys, xs, n)|
    ensures AtRunEnds(xs, xs, n)[k] == xs[i] && AtRunEnds(ys, xs, n)[k] == ys[i]
  {
    KeptTogether(xs, ys, n - 1);
    if i == n - 1 {
      k := |AtRunEnds(xs, xs, n - 1)|;
    } else {
      k := RunEndIsKept(xs, ys, n - 1, i);
    }
  }

  /** Nothing else is kept. */
  lemma {:induction false} KeptIsRunEnd(xs: seq<real>, ys: seq<real>, n: nat, k: nat) returns (i: nat)
    requires n <= |xs| == |ys| && k < |AtRunEnds(xs, xs, n)|
    ensures i < n && EndsRun(xs, i) && k < |AtRunEnds(ys, xs, n)|
    ensures AtRunEnds(xs, xs, n)[k] == xs[i] && AtRunEnds(ys, xs, n)[k] == ys[i]
  {
    KeptTogether(xs, ys, n - 1);
    if k == |AtRunEnds(xs, xs, n - 1)| {
      i := n - 1;
    } else {
      i := KeptIsRunEnd(xs, ys, n - 1, k);
    }
  }

  ghost predicate Nonfalling(xs: seq<real>) {
    forall i, j | 0 <= i <= j < |xs| :: xs[i] <= xs[j]
  }

  ghost predicate Increasing(xs: seq<real>) {
    forall i, j | 0 <= i < j < |xs| :: xs[i] < xs[j]
  }

  /** The kept thresholds of a list that does not fall increase strictly. */
  lemma {:induction false} KeptIncrease(xs: seq<real>, n: nat)
    requires Nonfalling(xs) && n <= |xs|
    ensures Increasing(AtRunEnds(xs, xs, n))
    ensures n < |xs| ==> forall k | 0 <= k < |AtRunEnds(xs, xs, n)| :: AtRunEnds(xs, xs, n)[k] < xs[n]
  {
    if n > 0 {
      KeptIncrease(xs, n - 1);
      assert n < |xs| ==> xs[n - 1] <= xs[n];
    }
  }

  lemma {:induction false} IncreasingIsKept(s: seq<real>, xs: seq<real>, n: nat)
    requires Increasing(xs) && n <= |s| == |xs|
    ensures AtRunEnds(s, xs, n) == s[..n]
  {
    if n > 0 {
      IncreasingIsKept(s, xs, n - 1);
      assert s[..n] == s[..n - 1] + [s[n - 1]];
    }
  }

  lemma IncreasingAreKept(xs: seq<real>, ys: seq<real>)
    requires Increasing(xs) && |xs| == |ys|
    ensures AtRunEnds(xs, xs, |xs|) == xs && AtRunEnds(ys, xs, |xs|) == ys
  {
    IncreasingIsKept(xs, xs, |xs|);
    IncreasingIsKept(ys, xs, |xs|);
  }

  /** Beyond the thresholds the step function has its first and its last value. */
  lemma StepAtEnds(xt: seq<real>, yv: seq<real>, x: real)
    requires |xt| == |yv| && xt != []
    ensures x <= xt[0] ==> Step(xt, yv)(x) == yv[0]
    ensures (forall i | 0 <= i < |xt| :: xt[i] < x) ==> Step(xt, yv)(x) == yv[|yv| - 1]
  {
    var j := SearchLeft(xt, x);
    assert x <= xt[0] ==> j == 0;
  }

  // ---------- between the training scores ----------

  /** The i-th point has the least training score that is not below x, or the greatest one if all are. */
  ghost predicate NextScore(points: seq<Point>, x: real, i: nat) {
    && i < |points|
    && (points[i].x >= x
        ==> forall k | 0 <= k < |points| :: points[k].x < x || points[k].x >= points[i].x)
    && (points[i].x < x
        ==> forall k | 0 <= k < |points| :: points[k].x <= points[i].x)
  }

  /** Every score has such a point. */
  lemma {:induction false} NextScoreExists(points: seq<Point>, x: real) returns (i: nat)
    requires points != []
    ensures NextScore(points, x, i)
  {
    var front, last := points[..|points| - 1], points[|points| - 1];
    assert forall k | 0 <= k < |front| :: points[k] == front[k];
    i := |points| - 1;
    if front != [] {
      var j := NextScoreExists(front, x);
      if last.x < x {
        i := if front[j].x < last.x then i else j;
      } else {
        i := if front[j].x < x || last.x <= front[j].x then i else j;
      }
    }
  }

  ghost predicate IsScore(points: seq<Point>, x: real) {
    exists i :: 0 <= i < |points| && points[i].x == x
  }

  /** With strictly increasing training scores as thresholds, the step function takes at any score the value
      that it has at the next training score. */
  lemma StepAtNext(points: seq<Point>, xt: seq<real>, yv: seq<real>, x: real, i: nat)
    requires |xt| == |yv| && Increasing(xt) && NextScore(points, x, i)
    requires forall j | 0 <= j < |xt| :: IsScore(points, xt[j])
    ensures Step(xt, yv)(x) == Step(xt, yv)(points[i].x)
  {
    var y := points[i].x;
    var j, k := SearchLeft(xt, x), SearchLeft(xt, y);
    if y >= x {
      assert j < |xt| ==> IsScore(points, xt[j]) && xt[j] >= y;
      assert j <= k;
      assert k == j;
    } else {
      assert j < |xt| ==> IsScore(points, xt[j]);
      assert j == |xt|;
      assert k < |xt| ==> IsScore(points, xt[k]) && xt[k] == y;
      assert xt != [] ==> IsScore(points, xt[|xt| - 1]);
    }
  }

  lemma RightIsScore(points: seq<Point>, blocks: seq<Block>, j: nat)
    requires Covers(ByScore(points), blocks, |points|) && j < |blocks|
    ensures IsScore(points, blocks[j].right)
  {
    var s := ByScore(points);
    ByScoreIsOrdered(points);
    CoversAt(s, blocks, |s|, j);
    var p := s[Start(blocks, j + 1) - 1];
    assert p in multiset(s);
    assert p in points;
  }

  lemma FitBetween(points: seq<Point>, blocks: seq<Block>)
    requires Covers(ByScore(points), blocks, |points|) && Increasing(Rights(blocks))
    ensures forall j | 0 <= j < |blocks| :: IsScore(points, Rights(blocks)[j])
    ensures forall x, i: nat | NextScore(points, x, i) :: StepOf(blocks)(x) == StepOf(blocks)(points[i].x)
  {
    forall j | 0 <= j < |blocks| ensures IsScore(points, Rights(blocks)[j]) {
      RightIsScore(points, blocks, j);
    }
    forall x, i: nat | NextScore(points, x, i) ensures StepOf(blocks)(x) == StepOf(blocks)(points[i].x) {
      StepAtNext(points, Rights(blocks), Means(blocks), x, i);
    }
  }

  /** `searchsorted`: minus infinity comes before every threshold, plus infinity and not-a-number after. */
  function Position(xt: seq<real>, score: Number): (j: nat)
    ensures j <= |xt|
  {
    match score
    case Finite(x) => SearchLeft(xt, x)
    case MinusInfinity => 0
    case _ => |xt|
  }

  class IsotonicCalibrator {
    var xThresholds: seq<real>
    var yValues: seq<real>

    ghost predicate Valid()
      reads this
    {
      |xThresholds| == |yValues|
    }

    /** An untrained calibrator. */
    constructor ()
      ensures Valid() && xThresholds == []
    {
      xThresholds, yValues := [], [];
    }

    /** Averages the labels of equal scores: one block for each distinct score. */
    static method Group(s: seq<Point>) returns (groups: seq<Block>)
      requires Ordered(s)
      ensures Covers(s, groups, |s|)
    {
      groups := [];
      var i := 0;
      while i < |s|
        invariant 0 <= i <= |s| && Covers(s, groups, i) && Boundary(s, i)
      {
        var j := i + 1;
        var sum, w := s[i].y, 1;
        while j < |s| && s[j].x == s[i].x
          invariant i < j <= |s| && w == j - i
          invariant sum == Excess(s, i, j, 0.0)
          invariant forall k | i <= k < j :: s[k].x == s[i].x
        {
          sum := sum + s[j].y;
          w := w + 1;
          j := j + 1;
        }
        var b := Block(sum / w as real, w, s[i].x, s[i].x);
        MeanTimesWeight(sum, w as real);
        GroupIsBlock(s, i, j, sum, b);
        assert (groups + [b])[..|groups|] == groups;
        groups := groups + [b];
        i := j;
      }
    }

    /** The pooling loop: push each group, then merge while the last two means are out of order. */
    static method Pool(ghost s: seq<Point>, groups: seq<Block>) returns (blocks: seq<Block>)
      requires Covers(s, groups, |s|)
      ensures Covers(s, blocks, |s|) && Ascending(blocks)
      ensures s != [] ==> blocks != []
    {
      blocks := [];
      for i := 0 to |groups|
        invariant Covers(s, blocks, Start(groups, i)) && Ascending(blocks)
      {
        ghost var n := Start(groups, i + 1);
        CoversAt(s, groups, |s|, i);
        assert (blocks + [groups[i]])[..|blocks|] == blocks;
        blocks := blocks + [groups[i]];
        while |blocks| >= 2 && blocks[|blocks| - 2].mean > blocks[|blocks| - 1].mean
          invariant blocks != [] && Covers(s, blocks, n)
          invariant Ascending(blocks[..|blocks| - 1])
          decreases |blocks|
        {
          MergeCovers(s, blocks, n);
          var b2, b1 := blocks[|blocks| - 1], blocks[|blocks| - 2];
          blocks := blocks[..|blocks| - 2] + [Merged(b1, b2)];
        }
        assert forall k | 0 < k < |blocks| - 1 :: blocks[..|blocks| - 1][k] == blocks[k];
      }
      if groups != [] {
        CoversAt(s, groups, |s|, 0);
      }
      CoversStart(s, groups, |s|);
      CoversStart(s, blocks, |s|);
    }

    /** Drops repeated right ends, keeping the value that came last. */
    static method Deduplicate(xs: seq<real>, ys: seq<real>) returns (xt: seq<real>, yv: seq<real>)
      requires |xs| == |ys|
      ensures xt == AtRunEnds(xs, xs, |xs|) && yv == AtRunEnds(ys, xs, |xs|)
      ensures Nonfalling(xs) ==> Increasing(xt)
    {
      xt, yv := [], [];
      for i := 0 to |xs|
        invariant i == 0 ==> xt == yv == []
        invariant i > 0 ==> xt == AtRunEnds(xs, xs, i - 1) + [xs[i - 1]]
        invariant i > 0 ==> yv == AtRunEnds(ys, xs, i - 1) + [ys[i - 1]]
      {
        if i == 0 || xs[i] > xs[i - 1] {
          xt := xt + [xs[i]];
          yv := yv + [ys[i]];
        } else {
          xt := xt[|xt| - 1 := xs[i]];
          yv := yv[|yv| - 1 := ys[i]];
        }
      }
      if Nonfalling(xs) {
        KeptIncrease(xs, |xs|);
      }
    }

    /** `fit`: the stored step function is nondecreasing and optimal for the finite points, and between their
        scores it has the value of the next one above, beyond them that of the greatest one. */
    method Fit(scores: seq<Number>, labels: seq<Number>)
      requires |scores| == |labels|
      modifies this
      ensures Valid() && xThresholds != []
      ensures Clean(scores, labels) == [] ==> xThresholds == [0.0, 1.0] && yValues == [0.5, 0.5]
      ensures Nondecreasing(Step(xThresholds, yValues))
      ensures forall f: real -> real | Nondecreasing(f) ::
        var points, g := Clean(scores, labels), Step(xThresholds, yValues);
        Loss(points, f) >= Loss(points, g) + Distance(points, g, f)
      ensures forall x, i: nat | NextScore(Clean(scores, labels), x, i) ::
        Step(xThresholds, yValues)(x) == Step(xThresholds, yValues)(Clean(scores, labels)[i].x)
      ensures Increasing(xThresholds)
      ensures Clean(scores, labels) != [] ==> forall j | 0 <= j < |xThresholds| :: IsScore(Clean(scores, labels), xThresholds[j])
    {
      var points := Clean(scores, labels);
      if points == [] {
        xThresholds, yValues := [0.0, 1.0], [0.5, 0.5];
        return;
      }
      var s := ByScore(points);
      ByScoreIsOrdered(points);
      var groups := Group(s);
      var blocks := Pool(s, groups);
      RightsIncrease(s, blocks);
      var xt, yv := Deduplicate(Rights(blocks), Means(blocks));
      IncreasingAreKept(Rights(blocks), Means(blocks));
      xThresholds, yValues := xt, yv;
      StepIsNondecreasing(blocks);
      forall f: real -> real | Nondecreasing(f)
        ensures Loss(points, f) >= Loss(points, StepOf(blocks)) + Distance(points, StepOf(blocks), f)
      {
        FitIsOptimal(points, blocks, f);
      }
      FitBetween(points, blocks);
    }

    /** `predict_proba`. */
    method PredictProba(scores: seq<Number>) returns (out: seq<real>)
      requires Valid()
      ensures |out| == |scores|
      ensures xThresholds == [] ==> forall i | 0 <= i < |scores| :: out[i] == 0.5
      ensures forall i | 0 <= i < |scores| && scores[i].Finite? :: out[i] == Step(xThresholds, yValues)(scores[i].value)
      ensures xThresholds != [] ==> forall i | 0 <= i < |scores| && !scores[i].Finite? ::
        out[i] == if scores[i].MinusInfinity? then yValues[0] else yValues[|yValues| - 1]
    {
      if xThresholds == [] || yValues == [] {
        return seq(|scores|, _ => 0.5);
      }
      out := [];
      for i := 0 to |scores|
        invariant |out| == i
        invariant forall k | 0 <= k < i && scores[k].Finite? :: out[k] == Step(xThresholds, yValues)(scores[k].value)
        invariant forall k | 0 <= k < i && !scores[k].Finite? ::
          out[k] == if scores[k].MinusInfinity? then yValues[0] else yValues[|yValues| - 1]
      {
        var j := Position(xThresholds, scores[i]);
        if j >= |xThresholds| {
          out := out + [yValues[|yValues| - 1]];
        } else {
          out := out + [yValues[j]];
        }
      }
    }
  }

  lemma MeanTimesWeight(sum: real, w: real)
    requires w > 0.0
    ensures Product(sum / w - 0.0, w) == sum
  {
  }

  lemma GroupEnds(s: seq<Point>, i: nat, j: nat)
    requires Ordered(s) && i < j <= |s|
    requires j < |s| ==> s[j].x != s[j - 1].x
    ensures Boundary(s, j)
  {
    assert j < |s| ==> s[j - 1].x <= s[j].x;
  }

  lemma NoBoundaryInside(s: seq<Point>, i: nat, j: nat, c: nat)
    requires i < c < j <= |s| && forall k | i <= k < j :: s[k].x == s[i].x
    ensures !Boundary(s, c)
  {
    var before := c - 1;
    assert s[before].x == s[i].x && s[c].x == s[i].x;
  }

  lemma GroupIsBlock(s: seq<Point>, i: nat, j: nat, sum: real, b: Block)
    requires Ordered(s) && i < j <= |s| && Boundary(s, i)
    requires forall k | i <= k < j :: s[k].x == s[i].x
    requires j < |s| ==> s[j].x != s[i].x
    requires sum == Excess(s, i, j, 0.0)
    requires b.weight == j - i && b.left == b.right == s[i].x && Product(b.mean - 0.0, b.weight as real) == sum
    ensures BlockOf(s, i, j, b)
  {
    var last := j - 1;
    assert s[last].x == s[i].x;
    GroupEnds(s, i, j);
    ExcessShifts(s, i, j, b.mean, 0.0);
    forall c | i < c < j ensures !Boundary(s, c) {
      NoBoundaryInside(s, i, j, c);
    }
    UnsplitBlock(s, i, j, b);
  }

  lemma UnsplitBlock(s: seq<Point>, i: nat, j: nat, b: Block)
    requires i < j <= |s| && Boundary(s, i) && Boundary(s, j)
    requires b.weight == j - i && b.left == s[i].x && b.right == s[j - 1].x
    requires Excess(s, i, j, b.mean) == 0.0
    requires forall c | i < c < j :: !Boundary(s, c)
    ensures BlockOf(s, i, j, b)
  {
  }
}
