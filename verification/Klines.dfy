/** Aggregation of klines to a coarser step: edge checks, bucketing and gap checks, one symbol at a time. */
module Klines {
  import opened Division
  import opened KeyOrder
  import opened Reals
  import opened Folded

  datatype Row = Row(ts: int, open: real, high: real, low: real, close: real,
    volume: real, trades: int, takerBase: real, takerQuote: real)

  function Floor(ts: int, step: int): int
    requires step > 0
  {
    ts / step * step
  }

  /** The bucket of a timestamp, as a function. */
  function Into(step: int): int -> int
    requires step > 0
  {
    (ts: int) => Floor(ts, step)
  }

  ghost predicate Monotone(into: int -> int) {
    forall x, y | x <= y :: into(x) <= into(y)
  }

  lemma FloorBounds(ts: int, step: int)
    requires step > 0
    ensures Floor(ts, step) <= ts < Floor(ts, step) + step && Floor(ts, step) % step == 0
  {
    MultipleMod(ts / step, step);
  }

  lemma FloorGrows(x: int, y: int, step: int)
    requires step > 0 && x <= y
    ensures Floor(x, step) <= Floor(y, step)
    ensures Floor(x, step) < Floor(y, step) ==> Floor(x, step) + step <= Floor(y, step)
  {
    FloorBounds(x, step);
    FloorBounds(y, step);
    assert Floor(y, step) - Floor(x, step) == (y / step - x / step) * step;
    FactorBound(y / step - x / step, step);
  }

  lemma FloorOfFloor(ts: int, a: int, b: int)
    requires a > 0 && b > 0 && b % a == 0
    ensures Floor(Floor(ts, a), b) == Floor(ts, b)
  {
    FloorBounds(ts, a);
    FloorBounds(ts, b);
    FloorGrows(Floor(ts, a), ts, b);
    MultipleOfMultiple(ts / b, a, b);
    FloorIsGreatest(Floor(ts, b), ts, a);
    FloorGrows(Floor(ts, b), Floor(ts, a), b);
    FloorIsGreatest(Floor(ts, b), Floor(ts, b), b);
  }

  lemma MultipleOfMultiple(q: int, a: int, b: int)
    requires a > 0 && b > 0 && b % a == 0
    ensures q * b % a == 0
  {
    var k := b / a;
    assert b == k * a;
    assert q * b == q * (k * a) == (q * k) * a;
    MultipleMod(q * k, a);
  }

  lemma FloorIsGreatest(x: int, ts: int, step: int)
    requires step > 0 && x % step == 0 && x <= ts
    ensures x <= Floor(ts, step)
  {
    assert x == x / step * step;
    FloorGrows(x, ts, step);
  }

  // ---------- grouping ----------

  /** The rows of one bucket, in frame order. */
  function Select(rows: seq<Row>, into: int -> int, bucket: int): seq<Row> {
    if rows == [] then [] else
      var last := rows[|rows| - 1];
      Select(rows[..|rows| - 1], into, bucket) + (if into(last.ts) == bucket then [last] else [])
  }

  /** First open, greatest high, least low, last close, and the sums. */
  function Merge(bar: Row, r: Row): Row {
    Row(bar.ts, bar.open, Max(bar.high, r.high), Min(bar.low, r.low), r.close,
      bar.volume + r.volume, bar.trades + r.trades, bar.takerBase + r.takerBase, bar.takerQuote + r.takerQuote)
  }

  function Bar(rows: seq<Row>, bucket: int): Row
    requires rows != []
  {
    if |rows| == 1 then rows[0].(ts := bucket)
    else Merge(Bar(rows[..|rows| - 1], bucket), rows[|rows| - 1])
  }

  function Buckets(rows: seq<Row>, into: int -> int): set<int> {
    set i | 0 <= i < |rows| :: into(rows[i].ts)
  }

  /** Every bucket that some row falls into has a bar made of its rows. */
  function Grouped(rows: seq<Row>, into: int -> int): seq<Row> {
    var keys := InOrder(false, Buckets(rows, into));
    seq(|keys|, i requires 0 <= i < |keys| =>
      SelectSome(rows, into, keys[i]);
      Bar(Select(rows, into, keys[i]), keys[i]))
  }

  lemma {:induction false} SelectSome(rows: seq<Row>, into: int -> int, bucket: int)
    ensures bucket in Buckets(rows, into) <==> Select(rows, into, bucket) != []
  {
    if rows != [] {
      var before := rows[..|rows| - 1];
      SelectSome(before, into, bucket);
      assert forall i | 0 <= i < |before| :: rows[i] == before[i];
      assert into(rows[|rows| - 1].ts) in Buckets(rows, into);
    }
  }

  // ---------- grouping in one pass ----------

  function Extend(bars: seq<Row>, r: Row, into: int -> int): seq<Row> {
    if bars != [] && bars[|bars| - 1].ts == into(r.ts)
    then bars[..|bars| - 1] + [Merge(bars[|bars| - 1], r)]
    else bars + [r.(ts := into(r.ts))]
  }

  /** One pass over the rows that only ever looks at the last bar. */
  function OnePass(rows: seq<Row>, into: int -> int): seq<Row> {
    if rows == [] then [] else Extend(OnePass(rows[..|rows| - 1], into), rows[|rows| - 1], into)
  }

  ghost predicate Sorted(rows: seq<Row>) {
    forall i, j | 0 <= i <= j < |rows| :: rows[i].ts <= rows[j].ts
  }

  ghost predicate Ascending(ks: seq<int>) {
    forall i, j | 0 <= i < j < |ks| :: ks[i] < ks[j]
  }

  function TimesOf(rows: seq<Row>): seq<int> {
    seq(|rows|, i requires 0 <= i < |rows| => rows[i].ts)
  }

  lemma {:induction false} AscendingIsInOrder(ks: seq<int>, keys: set<int>)
    requires Ascending(ks) && (forall i | 0 <= i < |ks| :: ks[i] in keys) && (forall k | k in keys :: k in ks)
    ensures InOrder(false, keys) == ks
    decreases |ks|
  {
    if ks == [] {
      EmptyOrNot(keys);
    } else {
      assert ks[0] in keys;
      var k := First(false, keys);
      assert k == ks[0];
      assert forall q | q in keys - {k} :: q in ks[1..] by {
        assert ks == [ks[0]] + ks[1..];
      }
      AscendingIsInOrder(ks[1..], keys - {k});
    }
  }

  ghost predicate IsBar(rows: seq<Row>, into: int -> int, bar: Row) {
    Select(rows, into, bar.ts) != [] && bar == Bar(Select(rows, into, bar.ts), bar.ts)
  }

  ghost predicate HasBar(bars: seq<Row>, bucket: int) {
    exists i :: 0 <= i < |bars| && bars[i].ts == bucket
  }

  ghost predicate BarsAscend(bars: seq<Row>) {
    forall i, j | 0 <= i < j < |bars| :: bars[i].ts < bars[j].ts
  }

  /** What the one-pass bars are: ascending, one per bucket, each made of all rows of its bucket. */
  ghost predicate IsGrouping(rows: seq<Row>, into: int -> int, bars: seq<Row>) {
    && BarsAscend(bars)
    && (forall i | 0 <= i < |bars| :: IsBar(rows, into, bars[i]))
    && (forall k | k in Buckets(rows, into) :: HasBar(bars, k))
    && (rows == [] <==> bars == [])
    && (rows != [] ==> bars[|bars| - 1].ts == into(rows[|rows| - 1].ts))
  }

  lemma TimeOf(bars: seq<Row>, i: nat)
    requires i < |bars|
    ensures TimesOf(bars)[i] == bars[i].ts
  {
  }

  /** A bucket beyond the last bar has no rows yet. */
  lemma BeyondTheBars(rows: seq<Row>, into: int -> int, bars: seq<Row>, bucket: int)
    requires IsGrouping(rows, into, bars) && (bars != [] ==> bars[|bars| - 1].ts < bucket)
    ensures Select(rows, into, bucket) == []
  {
    SelectSome(rows, into, bucket);
    forall i | 0 <= i < |bars| ensures bars[i].ts < bucket {
      assert i < |bars| - 1 ==> bars[i].ts < bars[|bars| - 1].ts;
    }
  }

  lemma SelectOfSnoc(rows: seq<Row>, r: Row, into: int -> int, bucket: int)
    ensures into(r.ts) == bucket ==> Select(rows + [r], into, bucket) == Select(rows, into, bucket) + [r]
    ensures into(r.ts) != bucket ==> Select(rows + [r], into, bucket) == Select(rows, into, bucket)
  {
    assert (rows + [r])[..|rows|] == rows;
  }

  lemma BarOfSnoc(rows: seq<Row>, r: Row, bucket: int)
    requires rows != []
    ensures Bar(rows + [r], bucket) == Merge(Bar(rows, bucket), r)
  {
    assert (rows + [r])[..|rows|] == rows;
  }

  /** The bar a further row falls into, which is the last one or a new one. */
  lemma ExtendLast(rows: seq<Row>, into: int -> int, bars: seq<Row>, r: Row)
    requires IsGrouping(rows, into, bars)
    requires bars != [] ==> bars[|bars| - 1].ts <= into(r.ts)
    ensures var next := Extend(bars, r, into); IsBar(rows + [r], into, next[|next| - 1])
  {
    var bucket := into(r.ts);
    if bars == [] || bars[|bars| - 1].ts < bucket {
      BeyondTheBars(rows, into, bars, bucket);
      NewBar(rows, into, r);
    } else {
      assert IsBar(rows, into, bars[|bars| - 1]);
      GrownBar(rows, into, bars[|bars| - 1], r);
    }
  }

  lemma NewBar(rows: seq<Row>, into: int -> int, r: Row)
    requires Select(rows, into, into(r.ts)) == []
    ensures IsBar(rows + [r], into, r.(ts := into(r.ts)))
  {
    SelectOfSnoc(rows, r, into, into(r.ts));
  }

  lemma GrownBar(rows: seq<Row>, into: int -> int, bar: Row, r: Row)
    requires IsBar(rows, into, bar) && bar.ts == into(r.ts)
    ensures IsBar(rows + [r], into, Merge(bar, r))
  {
    SelectOfSnoc(rows, r, into, bar.ts);
    BarOfSnoc(Select(rows, into, bar.ts), r, bar.ts);
  }

  lemma EarlierBar(rows: seq<Row>, into: int -> int, bars: seq<Row>, r: Row, i: nat)
    requires IsGrouping(rows, into, bars) && i < |bars| && bars[i].ts < into(r.ts)
    ensures IsBar(rows + [r], into, bars[i])
  {
    assert IsBar(rows, into, bars[i]);
    SelectOfSnoc(rows, r, into, bars[i].ts);
  }

  /** The bars of an extension: the last one is the row's, the others are those before it. */
  lemma ExtendIs(bars: seq<Row>, r: Row, into: int -> int)
    requires BarsAscend(bars) && (bars != [] ==> bars[|bars| - 1].ts <= into(r.ts))
    ensures var next := Extend(bars, r, into);
      && next != [] && next[|next| - 1].ts == into(r.ts)
      && |next| - 1 <= |bars| && (forall i | 0 <= i < |next| - 1 :: next[i] == bars[i] && bars[i].ts < into(r.ts))
      && BarsAscend(next)
      && forall k | HasBar(bars, k) :: HasBar(next, k)
  {
    var next, n := Extend(bars, r, into), |Extend(bars, r, into)| - 1;
    forall i | 0 <= i < n ensures next[i] == bars[i] && bars[i].ts < into(r.ts) {
      assert i < |bars| - 1 ==> bars[i].ts < bars[|bars| - 1].ts;
    }
    assert next[n].ts == into(r.ts);
    forall k | HasBar(bars, k) ensures HasBar(next, k) {
      var i :| 0 <= i < |bars| && bars[i].ts == k;
      assert i < n ==> next[i].ts == k;
    }
  }

  lemma ExtendGroups(rows: seq<Row>, into: int -> int, bars: seq<Row>, r: Row)
    requires IsGrouping(rows, into, bars)
    requires Monotone(into) && (rows != [] ==> rows[|rows| - 1].ts <= r.ts)
    ensures IsGrouping(rows + [r], into, Extend(bars, r, into))
  {
    var all, next, bucket := rows + [r], Extend(bars, r, into), into(r.ts);
    if rows != [] {
      assert into(rows[|rows| - 1].ts) <= bucket;
    }
    ExtendIs(bars, r, into);
    ExtendLast(rows, into, bars, r);
    forall i | 0 <= i < |next| ensures IsBar(all, into, next[i]) {
      if i < |next| - 1 {
        EarlierBar(rows, into, bars, r, i);
      }
    }
    forall k | k in Buckets(all, into) ensures HasBar(next, k) {
      var i :| 0 <= i < |all| && into(all[i].ts) == k;
      if i < |rows| {
        assert all[i] == rows[i] && k in Buckets(rows, into);
        assert HasBar(bars, k);
      } else {
        assert next[|next| - 1].ts == k;
      }
    }
  }

  lemma {:induction false} OnePassGroups(rows: seq<Row>, into: int -> int)
    requires Sorted(rows) && Monotone(into)
    ensures IsGrouping(rows, into, OnePass(rows, into))
  {
    if rows != [] {
      var before := rows[..|rows| - 1];
      OnePassGroups(before, into);
      ExtendGroups(before, into, OnePass(before, into), rows[|rows| - 1]);
      assert before + [rows[|rows| - 1]] == rows;
    }
  }

  /** On time-sorted rows grouping by bucket is the one pass. */
  lemma GroupedIsOnePass(rows: seq<Row>, into: int -> int)
    requires Sorted(rows) && Monotone(into)
    ensures IsGrouping(rows, into, OnePass(rows, into))
    ensures Grouped(rows, into) == OnePass(rows, into)
  {
    OnePassGroups(rows, into);
    GroupingIsGrouped(rows, into, OnePass(rows, into));
  }

  lemma GroupingIsGrouped(rows: seq<Row>, into: int -> int, bars: seq<Row>)
    requires IsGrouping(rows, into, bars)
    ensures Grouped(rows, into) == bars
  {
    var keys := TimesOf(bars);
    forall i | 0 <= i < |keys| ensures keys[i] in Buckets(rows, into) {
      SelectSome(rows, into, keys[i]);
      assert bars[i].ts == keys[i] && IsBar(rows, into, bars[i]);
    }
    GroupingTimes(rows, into, bars);
    AscendingIsInOrder(keys, Buckets(rows, into));
  }

  lemma GroupingTimes(rows: seq<Row>, into: int -> int, bars: seq<Row>)
    requires IsGrouping(rows, into, bars)
    ensures Ascending(TimesOf(bars)) && forall k | k in Buckets(rows, into) :: k in TimesOf(bars)
  {
    forall i, j | 0 <= i < j < |TimesOf(bars)| ensures TimesOf(bars)[i] < TimesOf(bars)[j] {
      assert bars[i].ts < bars[j].ts;
    }
    forall k | k in Buckets(rows, into) ensures k in TimesOf(bars) {
      assert HasBar(bars, k);
      var i :| 0 <= i < |bars| && bars[i].ts == k;
      assert TimesOf(bars)[i] == k;
    }
  }

  // ---------- composition ----------

  ghost predicate Nested(fine: int -> int, coarse: int -> int) {
    forall x :: coarse(fine(x)) == coarse(x)
  }

  lemma ExtendTwice(bars: seq<Row>, l: Row, r: Row, into: int -> int)
    requires into(l.ts) == into(r.ts)
    ensures Extend(Extend(bars, l, into), r, into) == Extend(bars, Merge(l, r), into)
  {
    var once := Extend(bars, l, into);
    assert once[|once| - 1].ts == into(r.ts);
    assert once[..|once| - 1] == if bars != [] && bars[|bars| - 1].ts == into(l.ts) then bars[..|bars| - 1] else bars;
  }

  lemma OnePassOfSnoc(rows: seq<Row>, r: Row, into: int -> int)
    ensures OnePass(rows + [r], into) == Extend(OnePass(rows, into), r, into)
  {
    assert (rows + [r])[..|rows|] == rows;
  }

  lemma {:induction false} OnePassComposes(rows: seq<Row>, fine: int -> int, coarse: int -> int)
    requires Nested(fine, coarse)
    ensures OnePass(OnePass(rows, fine), coarse) == OnePass(rows, coarse)
  {
    if rows != [] {
      var before, r := rows[..|rows| - 1], rows[|rows| - 1];
      OnePassComposes(before, fine, coarse);
      ExtendComposes(OnePass(before, fine), r, fine, coarse);
    }
  }

  lemma GrownComposes(front: seq<Row>, l: Row, r: Row, fine: int -> int, coarse: int -> int)
    requires Nested(fine, coarse) && l.ts == fine(r.ts)
    ensures OnePass(front + [Merge(l, r)], coarse) == Extend(OnePass(front + [l], coarse), r, coarse)
  {
    OnePassOfSnoc(front, l, coarse);
    OnePassOfSnoc(front, Merge(l, r), coarse);
    ExtendTwice(OnePass(front, coarse), l, r, coarse);
  }

  lemma StampedExtends(bars: seq<Row>, r: Row, fine: int -> int, coarse: int -> int)
    requires coarse(fine(r.ts)) == coarse(r.ts)
    ensures Extend(bars, r.(ts := fine(r.ts)), coarse) == Extend(bars, r, coarse)
  {
  }

  lemma ExtendGrown(bars: seq<Row>, r: Row, fine: int -> int) returns (front: seq<Row>, l: Row)
    requires bars != [] && bars[|bars| - 1].ts == fine(r.ts)
    ensures bars == front + [l] && l.ts == fine(r.ts) && Extend(bars, r, fine) == front + [Merge(l, r)]
  {
    front, l := bars[..|bars| - 1], bars[|bars| - 1];
  }

  lemma ExtendNew(bars: seq<Row>, r: Row, fine: int -> int, coarse: int -> int)
    requires Nested(fine, coarse)
    ensures OnePass(bars + [r.(ts := fine(r.ts))], coarse) == Extend(OnePass(bars, coarse), r, coarse)
  {
    OnePassOfSnoc(bars, r.(ts := fine(r.ts)), coarse);
    StampedExtends(OnePass(bars, coarse), r, fine, coarse);
  }

  lemma ExtendComposes(bars: seq<Row>, r: Row, fine: int -> int, coarse: int -> int)
    requires Nested(fine, coarse)
    ensures OnePass(Extend(bars, r, fine), coarse) == Extend(OnePass(bars, coarse), r, coarse)
  {
    if bars != [] && bars[|bars| - 1].ts == fine(r.ts) {
      var front, l := ExtendGrown(bars, r, fine);
      GrownComposes(front, l, r, fine, coarse);
    } else {
      ExtendNew(bars, r, fine, coarse);
    }
  }

  /** For time-sorted rows, aggregating to a and then to a multiple b gives the bars of aggregating
      straight to b. */
  lemma AggregationComposes(rows: seq<Row>, a: int, b: int)
    requires a > 0 && b > 0 && b % a == 0 && Sorted(rows)
    ensures Grouped(Grouped(rows, Into(a)), Into(b)) == Grouped(rows, Into(b))
  {
    IntoIsMonotone(a);
    IntoIsMonotone(b);
    IntoIsNested(a, b);
    GroupedIsOnePass(rows, Into(a));
    GroupedIsOnePass(rows, Into(b));
    BarsAreSorted(OnePass(rows, Into(a)));
    GroupedIsOnePass(OnePass(rows, Into(a)), Into(b));
    OnePassComposes(rows, Into(a), Into(b));
  }

  lemma IntoIsMonotone(step: int)
    requires step > 0
    ensures Monotone(Into(step))
  {
    forall x, y | x <= y ensures Into(step)(x) <= Into(step)(y) {
      FloorGrows(x, y, step);
    }
  }

  lemma IntoIsNested(a: int, b: int)
    requires a > 0 && b > 0 && b % a == 0
    ensures Nested(Into(a), Into(b))
  {
    forall x ensures Into(b)(Into(a)(x)) == Into(b)(x) {
      FloorOfFloor(x, a, b);
    }
  }

  lemma BarsAreSorted(bars: seq<Row>)
    requires BarsAscend(bars)
    ensures Sorted(bars)
  {
  }

  // ---------- acceptance ----------

  /** The timestamps present, ascending. */
  function Times(rows: seq<Row>): seq<int> {
    InOrder(false, set i | 0 <= i < |rows| :: rows[i].ts)
  }

  lemma SomeTimes(rows: seq<Row>)
    requires rows != []
    ensures Times(rows) != []
  {
    assert rows[0].ts in Times(rows);
  }

  /** The least difference between neighbours. */
  function LeastDiff(ts: seq<int>): int
    requires |ts| >= 2
  {
    var d := ts[|ts| - 1] - ts[|ts| - 2];
    if |ts| == 2 then d else
      var before := LeastDiff(ts[..|ts| - 1]);
      if d < before then d else before
  }

  /** The step of the input: the least positive difference of timestamps, or the target step if there is none. */
  function BaseStep(ts: seq<int>, step: int): int {
    if |ts| < 2 then step else LeastDiff(ts)
  }

  predicate StartOk(ts: seq<int>, step: int)
    requires ts != [] && step > 0
  {
    ts[0] % step == 0
  }

  predicate EndOk(ts: seq<int>, step: int)
    requires ts != [] && step > 0
  {
    (ts[|ts| - 1] + BaseStep(ts, step)) % step == 0
  }

  predicate NoGaps(ts: seq<int>, step: int) {
    forall i, j | 0 <= i < |ts| && 0 <= j < |ts| && j == i + 1 :: ts[j] - ts[i] == step
  }

  function Keep(rows: seq<Row>, from: int, until: int): seq<Row> {
    if rows == [] then [] else
      var last := rows[|rows| - 1];
      Keep(rows[..|rows| - 1], from, until) + (if from <= last.ts < until then [last] else [])
  }

  /** The rows left when incomplete windows at the edges are dropped. */
  function Trimmed(rows: seq<Row>, step: int): seq<Row>
    requires rows != [] && step > 0
  {
    SomeTimes(rows);
    var ts := Times(rows);
    Keep(rows,
      Floor(ts[0], step) + (if StartOk(ts, step) then 0 else step),
      Floor(ts[|ts| - 1], step) + (if EndOk(ts, step) then step else 0))
  }

  datatype Outcome = Bars(bars: seq<Row>) | Rejected

  predicate EdgesOk(rows: seq<Row>, step: int)
    requires rows != [] && step > 0
  {
    SomeTimes(rows);
    StartOk(Times(rows), step) && EndOk(Times(rows), step)
  }

  /** The rows `_agg` makes its bars of: all of them, or those of complete windows when edges are dropped. */
  function Cleaned(rows: seq<Row>, step: int, dropPartial: bool): seq<Row>
    requires step > 0
  {
    if rows == [] || EdgesOk(rows, step) || !dropPartial then rows else Trimmed(rows, step)
  }

  /** What `_agg` makes of the rows of one symbol. */
  function Agg(rows: seq<Row>, step: int, dropPartial: bool): Outcome
    requires step > 0
  {
    if rows == [] then Bars([])
    else if !EdgesOk(rows, step) && !dropPartial then Rejected
    else
      var bars := Grouped(Cleaned(rows, step, dropPartial), Into(step));
      if NoGaps(TimesOf(bars), step) then Bars(bars) else Rejected
  }

  // ---------- rows without gaps ----------

  ghost predicate NextTo(i: int, j: int) {
    j == i + 1
  }

  /** One row every d, nothing missing and nothing twice. */
  ghost predicate Complete(rows: seq<Row>, d: int) {
    d > 0 && rows != [] &&
    forall i, j {:trigger NextTo(i, j)} | 0 <= i < j < |rows| && NextTo(i, j) :: rows[j].ts - rows[i].ts == d
  }

  lemma {:induction false} CompleteAscends(rows: seq<Row>, d: int, i: nat, j: nat)
    requires Complete(rows, d) && i < j < |rows|
    ensures rows[i].ts < rows[j].ts
    decreases j
  {
    assert NextTo(j - 1, j);
    if i < j - 1 {
      CompleteAscends(rows, d, i, j - 1);
    }
  }

  lemma CompleteTimes(rows: seq<Row>, d: int)
    requires Complete(rows, d)
    ensures Sorted(rows) && Times(rows) == TimesOf(rows)
  {
    forall i, j | 0 <= i < j < |rows| ensures rows[i].ts < rows[j].ts {
      CompleteAscends(rows, d, i, j);
    }
    forall i, j | 0 <= i < j < |TimesOf(rows)| ensures TimesOf(rows)[i] < TimesOf(rows)[j] {
      TimeOf(rows, i);
      TimeOf(rows, j);
    }
    var keys := set i | 0 <= i < |rows| :: rows[i].ts;
    forall k | k in keys ensures k in TimesOf(rows) {
      var i :| 0 <= i < |rows| && rows[i].ts == k;
      TimeOf(rows, i);
    }
    AscendingIsInOrder(TimesOf(rows), keys);
  }

  lemma {:induction false} LeastDiffOfEven(ts: seq<int>, d: int)
    requires |ts| >= 2 && NoGaps(ts, d)
    ensures LeastDiff(ts) == d
  {
    if |ts| > 2 {
      LeastDiffOfEven(ts[..|ts| - 1], d);
    }
  }

  lemma FloorOfNext(ts: int, d: int, step: int)
    requires 0 < d <= step
    ensures Floor(ts + d, step) == Floor(ts, step) || Floor(ts + d, step) == Floor(ts, step) + step
  {
    FloorBounds(ts, step);
    FloorBounds(ts + d, step);
    FloorGrows(ts, ts + d, step);
    OneApartAtMost(ts / step, (ts + d) / step, step);
  }

  lemma OneApartAtMost(q: int, q': int, step: int)
    requires step > 0 && q * step <= q' * step < q * step + 2 * step
    ensures q' * step == q * step || q' * step == q * step + step
  {
    FactorBound(q' - q, step);
    FactorBound(q' - q - 1, step);
    assert (q' - q) * step == q' * step - q * step;
    assert (q' - q - 1) * step == q' * step - q * step - step;
  }

  /** Buckets that move by one step at most from a row to the next. */
  ghost predicate Steps(into: int -> int, d: int, step: int) {
    forall x, y {:trigger into(x), into(y)} | y == x + d :: into(y) == into(x) || into(y) == into(x) + step
  }

  lemma IntoSteps(d: int, step: int)
    requires 0 < d <= step
    ensures Steps(Into(step), d, step)
  {
    forall x, y | y == x + d ensures Into(step)(y) == Into(step)(x) || Into(step)(y) == Into(step)(x) + step {
      FloorOfNext(x, d, step);
    }
  }

  lemma ExtendKeepsGaplessness(bars: seq<Row>, r: Row, into: int -> int, step: int)
    requires bars != [] && NoGaps(TimesOf(bars), step)
    requires into(r.ts) == bars[|bars| - 1].ts || into(r.ts) == bars[|bars| - 1].ts + step
    ensures var next := Extend(bars, r, into);
      next[0].ts == bars[0].ts && next[|next| - 1].ts == into(r.ts) && NoGaps(TimesOf(next), step)
  {
    var next := Extend(bars, r, into);
    forall i, j | 0 <= i < j < |next| && j == i + 1 ensures TimesOf(next)[j] - TimesOf(next)[i] == step {
      assert j < |bars| ==> TimesOf(bars)[j] - TimesOf(bars)[i] == step;
    }
  }

  /** Complete rows of a step no larger than the target leave no gap between buckets. */
  lemma {:induction false} CompleteHasNoGaps(rows: seq<Row>, d: int, into: int -> int, step: int)
    requires Complete(rows, d) && Steps(into, d, step)
    ensures var bars := OnePass(rows, into);
      && bars != [] && NoGaps(TimesOf(bars), step)
      && bars[0].ts == into(rows[0].ts)
      && bars[|bars| - 1].ts == into(rows[|rows| - 1].ts)
  {
    var before, r := rows[..|rows| - 1], rows[|rows| - 1];
    if before != [] {
      CompleteHasNoGaps(before, d, into, step);
      var last := before[|before| - 1].ts;
      assert NextTo(|rows| - 2, |rows| - 1) && rows[|rows| - 1].ts - rows[|rows| - 2].ts == d;
      assert into(r.ts) == into(last) || into(r.ts) == into(last) + step;
      ExtendKeepsGaplessness(OnePass(before, into), r, into, step);
    }
  }

  lemma EdgesOfComplete(rows: seq<Row>, d: int, step: int)
    requires Complete(rows, d) && step > 0
    ensures var base := if |rows| == 1 then step else d;
      EdgesOk(rows, step) <==> rows[0].ts % step == 0 && (rows[|rows| - 1].ts + base) % step == 0
  {
    CompleteTimes(rows, d);
    TimeOf(rows, 0);
    TimeOf(rows, |rows| - 1);
    if |rows| > 1 {
      assert NoGaps(TimesOf(rows), d) by {
        forall i, j | 0 <= i < j < |rows| && j == i + 1 ensures TimesOf(rows)[j] - TimesOf(rows)[i] == d {
          assert NextTo(i, j);
          TimeOf(rows, i);
          TimeOf(rows, j);
        }
      }
      LeastDiffOfEven(TimesOf(rows), d);
    }
  }

  // The arithmetic of the two steps is done on folded facts; see Folded.
  const EDGES: int := 20
  const OUTCOME: int := 22
  const PASS: int := 23
  const DIVISOR: int := 24

  ghost predicate Aligned(x: int, step: int) {
    step > 0 && forall k {:trigger Open(k, EDGES)} :: Open(k, EDGES) ==> x % step == 0
  }

  ghost predicate Yields(rows: seq<Row>, step: int, outcome: Outcome) {
    step > 0 && forall k {:trigger Open(k, OUTCOME)} :: Open(k, OUTCOME) ==> Agg(rows, step, false) == outcome
  }

  ghost predicate IsOnePass(rows: seq<Row>, step: int, bars: seq<Row>) {
    step > 0 && forall k {:trigger Open(k, PASS)} :: Open(k, PASS) ==> bars == OnePass(rows, Into(step))
  }

  /** The edges from `first` to `end` lie on the grid. */
  ghost predicate Fits(first: int, end: int, step: int) {
    Aligned(first, step) && Aligned(end, step)
  }

  function Verdict(fits: bool, bars: seq<Row>): Outcome {
    if fits then Bars(bars) else Rejected
  }

  lemma CompleteOutcome(rows: seq<Row>, d: int, step: int, bars: seq<Row>, base: int)
    requires Complete(rows, d) && 0 < d <= step && IsOnePass(rows, step, bars)
    requires base == if |rows| == 1 then step else d
    ensures Yields(rows, step, Verdict(Fits(rows[0].ts, rows[|rows| - 1].ts + base, step), bars))
  {
    GroupedOfComplete(rows, d, step, bars);
    EdgesFit(rows, d, step, base);
    AggOfGapless(rows, step, bars);
  }

  lemma GroupedOfComplete(rows: seq<Row>, d: int, step: int, bars: seq<Row>)
    requires Complete(rows, d) && 0 < d <= step && IsOnePass(rows, step, bars)
    ensures Grouped(rows, Into(step)) == bars && NoGaps(TimesOf(bars), step)
  {
    assert Open(0, PASS);
    CompleteTimes(rows, d);
    IntoSteps(d, step);
    IntoIsMonotone(step);
    CompleteHasNoGaps(rows, d, Into(step), step);
    GroupedIsOnePass(rows, Into(step));
  }

  lemma EdgesFit(rows: seq<Row>, d: int, step: int, base: int)
    requires Complete(rows, d) && step > 0 && base == if |rows| == 1 then step else d
    ensures EdgesOk(rows, step) <==> Fits(rows[0].ts, rows[|rows| - 1].ts + base, step)
  {
    assert Open(0, EDGES);
    EdgesOfComplete(rows, d, step);
  }

  lemma AggOfGapless(rows: seq<Row>, step: int, bars: seq<Row>)
    requires step > 0 && rows != [] && Grouped(rows, Into(step)) == bars && NoGaps(TimesOf(bars), step)
    ensures Agg(rows, step, false) == Verdict(EdgesOk(rows, step), bars)
  {
  }

  lemma GaplessIsComplete(bars: seq<Row>, step: int)
    requires step > 0 && bars != [] && NoGaps(TimesOf(bars), step)
    ensures Complete(bars, step)
  {
    forall i, j | 0 <= i < j < |bars| && NextTo(i, j) ensures bars[j].ts - bars[i].ts == step {
      assert TimesOf(bars)[j] - TimesOf(bars)[i] == step;
    }
  }

  lemma MultipleOfDivisor(x: int, a: int, b: int)
    requires a > 0 && b > 0 && b % a == 0 && Aligned(x, b)
    ensures Aligned(x, a)
  {
    assert Open(0, EDGES);
    MultipleOfMultiple(x / b, a, b);
    assert x == x / b * b;
  }

  lemma MultiplePlus(x: int, a: int, b: int)
    requires 0 < a <= b && Aligned(x, b)
    ensures Aligned(x + a, b) <==> a == b
  {
    assert Open(0, EDGES);
    var q := x / b;
    assert x == q * b;
    if a == b {
      ModIsUnique(x + a, q + 1, 0, b);
    } else {
      ModIsUnique(x + a, q, a, b);
    }
  }

  lemma FloorAndStep(x: int, d: int, a: int)
    requires 0 < d <= a && Aligned(x + d, a)
    ensures Floor(x, a) + a == x + d
  {
    assert Open(0, EDGES);
    FloorBounds(x, a);
    var q, q' := x / a, (x + d) / a;
    assert x + d == q' * a;
    OneApartAtMost(q, q', a);
  }

  lemma FloorOfMultiple(x: int, a: int)
    requires Aligned(x, a)
    ensures Floor(x, a) == x
  {
    assert Open(0, EDGES);
  }

  lemma AtLeast(a: int, b: int)
    requires a > 0 && b > 0 && b % a == 0
    ensures a <= b
  {
    assert b == b / a * a;
  }

  ghost predicate Divides(a: int, b: int) {
    0 < a <= b && forall k {:trigger Open(k, DIVISOR)} :: Open(k, DIVISOR) ==> b % a == 0
  }

  lemma AlignedByDivisor(x: int, a: int, b: int)
    requires Divides(a, b)
    ensures Aligned(x, b) ==> Aligned(x, a)
    ensures Aligned(x, b) ==> (Aligned(x + a, b) <==> a == b)
  {
    if Aligned(x, b) {
      assert Open(0, DIVISOR);
      MultipleOfDivisor(x, a, b);
      MultiplePlus(x, a, b);
    }
  }

  lemma BarsOfComplete(rows: seq<Row>, d: int, a: int, bars: seq<Row>)
    requires Complete(rows, d) && 0 < d <= a && IsOnePass(rows, a, bars)
    ensures Complete(bars, a)
    ensures bars[0].ts == Floor(rows[0].ts, a) && bars[|bars| - 1].ts == Floor(rows[|rows| - 1].ts, a)
  {
    assert Open(0, PASS);
    IntoSteps(d, a);
    CompleteHasNoGaps(rows, d, Into(a), a);
    GaplessIsComplete(bars, a);
  }

  /** The bars of an accepted first step, as complete rows of the intermediate step. */
  lemma FirstStep(rows: seq<Row>, d: int, a: int, bars: seq<Row>, base: int)
    requires Complete(rows, d) && 0 < d <= a && IsOnePass(rows, a, bars) && 0 < base <= a
    requires Aligned(rows[0].ts, a) && Aligned(rows[|rows| - 1].ts + base, a)
    ensures Complete(bars, a)
    ensures bars[0].ts == rows[0].ts && bars[|bars| - 1].ts + a == rows[|rows| - 1].ts + base
    ensures |bars| == 1 <==> bars[0].ts == bars[|bars| - 1].ts
  {
    BarsOfComplete(rows, d, a, bars);
    FloorOfMultiple(rows[0].ts, a);
    FloorAndStep(rows[|rows| - 1].ts, base, a);
    if |bars| > 1 {
      CompleteAscends(bars, a, 0, |bars| - 1);
    }
  }

  lemma ComposesFolded(rows: seq<Row>, a: int, b: int, bars: seq<Row>, coarse: seq<Row>)
    requires Divides(a, b) && IsOnePass(rows, a, bars) && IsOnePass(rows, b, coarse)
    ensures IsOnePass(bars, b, coarse)
  {
    assert Open(0, PASS) && Open(0, DIVISOR);
    IntoIsNested(a, b);
    OnePassComposes(rows, Into(a), Into(b));
  }

  function TwoSteps(rows: seq<Row>, a: int, b: int): Outcome
    requires a > 0 && b > 0
  {
    match Agg(rows, a, false)
    case Bars(bars) => Agg(bars, b, false)
    case Rejected => Rejected
  }

  ghost predicate OneWindowFolded(rows: seq<Row>, d: int, a: int, b: int) {
    |rows| >= 2 && Aligned(rows[0].ts, b) && rows[0].ts + a == rows[|rows| - 1].ts + d && a != b
  }

  /** The case analysis, on the ends of the rows and of the intermediate bars alone. */
  lemma TwoStepCases(one: bool, first: int, last: int, d: int, a: int, b: int, lone: bool, barsLast: int)
    requires 0 < d <= a && Divides(a, b) && (one ==> first == last)
    requires var end := last + (if one then a else d);
      Fits(first, end, a) ==> barsLast + a == end && (lone <==> first == barsLast)
    ensures var fine := Fits(first, last + (if one then a else d), a);
      var straight := Fits(first, last + (if one then b else d), b);
      var twice := fine && Fits(first, barsLast + (if lone then b else a), b);
      var exception := !one && Aligned(first, b) && first + a == last + d && a != b;
      && (twice <==> straight || exception)
      && (exception ==> !straight)
  {
    AlignedByDivisor(first, a, b);
    AlignedByDivisor(first, b, b);
    AlignedByDivisor(first, a, a);
    AlignedByDivisor(last + d, a, b);
  }

  lemma SecondStep(rows: seq<Row>, d: int, a: int, b: int, bars: seq<Row>, coarse: seq<Row>, base: int)
    returns (barsLast: int, again: int)
    requires Complete(rows, d) && 0 < d <= a && Divides(a, b) && 0 < base <= a
    requires IsOnePass(rows, a, bars) && IsOnePass(rows, b, coarse) && Fits(rows[0].ts, rows[|rows| - 1].ts + base, a)
    ensures barsLast + a == rows[|rows| - 1].ts + base
    ensures again == if rows[0].ts == barsLast then b else a
    ensures Yields(bars, b, Verdict(Fits(rows[0].ts, barsLast + again, b), coarse))
  {
    FirstStep(rows, d, a, bars, base);
    ComposesFolded(rows, a, b, bars, coarse);
    barsLast, again := bars[|bars| - 1].ts, if |bars| == 1 then b else a;
    CompleteOutcome(bars, a, b, coarse, again);
  }

  /** The outcomes of the fine step, of the two steps and of the straight one, on the ends alone. */
  lemma TwoStepsFolded(rows: seq<Row>, d: int, a: int, b: int, bars: seq<Row>, coarse: seq<Row>)
    returns (fine: bool, twice: bool, straight: bool)
    requires Complete(rows, d) && 0 < d <= a && Divides(a, b)
    requires IsOnePass(rows, a, bars) && IsOnePass(rows, b, coarse)
    ensures Yields(rows, a, Verdict(fine, bars)) && Yields(rows, b, Verdict(straight, coarse))
    ensures fine ==> Yields(bars, b, Verdict(twice, coarse))
    ensures twice ==> fine
    ensures twice <==> straight || OneWindowFolded(rows, d, a, b)
    ensures OneWindowFolded(rows, d, a, b) ==> !straight
  {
    var first, last, one := rows[0].ts, rows[|rows| - 1].ts, |rows| == 1;
    fine, straight := FirstVerdicts(rows, d, a, b, bars, coarse);
    if fine {
      var barsLast, again := SecondStep(rows, d, a, b, bars, coarse, if one then a else d);
      twice := Fits(first, barsLast + again, b);
      TwoStepCases(one, first, last, d, a, b, first == barsLast, barsLast);
    } else {
      twice := false;
      TwoStepCases(one, first, last, d, a, b, true, first);
    }
  }

  lemma FirstVerdicts(rows: seq<Row>, d: int, a: int, b: int, bars: seq<Row>, coarse: seq<Row>)
    returns (fine: bool, straight: bool)
    requires Complete(rows, d) && 0 < d <= a && Divides(a, b)
    requires IsOnePass(rows, a, bars) && IsOnePass(rows, b, coarse)
    ensures Yields(rows, a, Verdict(fine, bars)) && Yields(rows, b, Verdict(straight, coarse))
    ensures fine <==> Fits(rows[0].ts, rows[|rows| - 1].ts + (if |rows| == 1 then a else d), a)
    ensures straight <==> Fits(rows[0].ts, rows[|rows| - 1].ts + (if |rows| == 1 then b else d), b)
  {
    CompleteOutcome(rows, d, a, bars, if |rows| == 1 then a else d);
    CompleteOutcome(rows, d, b, coarse, if |rows| == 1 then b else d);
    fine := Fits(rows[0].ts, rows[|rows| - 1].ts + (if |rows| == 1 then a else d), a);
    straight := Fits(rows[0].ts, rows[|rows| - 1].ts + (if |rows| == 1 then b else d), b);
  }

  /** The rows fill exactly one window of a, at the start of a larger window of b. */
  predicate OneWindow(rows: seq<Row>, d: int, a: int, b: int)
    requires b > 0
  {
    |rows| >= 2 && rows[0].ts % b == 0 && rows[0].ts + a == rows[|rows| - 1].ts + d && a != b
  }

  /** With the edge checks, aggregating complete rows in two steps has the outcome of aggregating them
      straight to the coarser step in all cases but one: when the rows fill exactly one intermediate window
      at the start of a coarser one, the lone intermediate bar passes for a complete coarser window. */
  lemma TwoStepsExactly(rows: seq<Row>, d: int, a: int, b: int)
    requires Complete(rows, d) && 0 < d <= a && b > 0 && b % a == 0
    ensures TwoSteps(rows, a, b) == Agg(rows, b, false) <==> !OneWindow(rows, d, a, b)
    ensures OneWindow(rows, d, a, b) ==> Agg(rows, b, false) == Rejected && TwoSteps(rows, a, b) == Bars(OnePass(rows, Into(b)))
  {
    AtLeast(a, b);
    var fine, twice, straight := TwoStepsFolded(rows, d, a, b, OnePass(rows, Into(a)), OnePass(rows, Into(b)));
    assert Open(0, EDGES) && Open(0, OUTCOME);
  }

  /** Three one-minute rows are rejected as a quarter of an hour, and accepted by way of three minutes. */
  lemma ThreeMinutesPassForFifteen(rows: seq<Row>)
    requires |rows| == 3 && rows[0].ts == 0 && rows[1].ts == 60_000 && rows[2].ts == 120_000
    ensures Agg(rows, 900_000, false) == Rejected && TwoSteps(rows, 180_000, 900_000).Bars?
  {
    assert Complete(rows, 60_000);
    TwoStepsExactly(rows, 60_000, 180_000, 900_000);
  }

  // ---------- what a bar keeps ----------

  datatype Totals = Totals(volume: real, trades: int, takerBase: real, takerQuote: real)

  function Sum(rows: seq<Row>): Totals {
    if rows == [] then Totals(0.0, 0, 0.0, 0.0) else
      Plus(Sum(rows[..|rows| - 1]), rows[|rows| - 1])
  }

  ghost predicate Sane(r: Row) {
    r.low <= r.open <= r.high && r.low <= r.close <= r.high
  }

  function Plus(t: Totals, r: Row): Totals {
    Totals(t.volume + r.volume, t.trades + r.trades, t.takerBase + r.takerBase, t.takerQuote + r.takerQuote)
  }

  ghost predicate AllSane(rows: seq<Row>) {
    forall i | 0 <= i < |rows| :: Sane(rows[i])
  }

  function SumOf(rows: seq<Row>, of: Row -> real): real {
    if rows == [] then 0.0 else SumOf(rows[..|rows| - 1], of) + of(rows[|rows| - 1])
  }

  /** A quantity that merging adds up and that does not depend on the timestamp. */
  ghost predicate Additive(of: Row -> real) {
    && (forall a, b :: of(Merge(a, b)) == of(a) + of(b))
    && (forall r: Row, ts :: of(r.(ts := ts)) == of(r))
  }

  /** What the rows of these buckets sum up to, bucket by bucket. */
  function SumOver(keys: seq<int>, rows: seq<Row>, into: int -> int, of: Row -> real): real {
    if keys == [] then 0.0 else
      SumOver(keys[..|keys| - 1], rows, into, of) + SumOf(Select(rows, into, keys[|keys| - 1]), of)
  }

  lemma {:induction false} SumOverOfNone(keys: seq<int>, into: int -> int, of: Row -> real)
    ensures SumOver(keys, [], into, of) == 0.0
  {
    if keys != [] {
      SumOverOfNone(keys[..|keys| - 1], into, of);
    }
  }

  lemma SumOfSnoc(rows: seq<Row>, r: Row, of: Row -> real)
    ensures SumOf(rows + [r], of) == SumOf(rows, of) + of(r)
  {
    assert (rows + [r])[..|rows|] == rows;
  }

  /** One more row is counted once, in its own bucket. */
  lemma {:induction false} SumOverOfSnoc(keys: seq<int>, rows: seq<Row>, r: Row, into: int -> int, of: Row -> real)
    requires Ordered(false, keys)
    ensures SumOver(keys, rows + [r], into, of) ==
            SumOver(keys, rows, into, of) + (if into(r.ts) in keys then of(r) else 0.0)
  {
    if keys != [] {
      var front, key := keys[..|keys| - 1], keys[|keys| - 1];
      SumOverOfSnoc(front, rows, r, into, of);
      OrderedIsDistinct(false, keys, |keys| - 1);
      assert keys == front + [key];
      SelectOfSnoc(rows, r, into, key);
      SumOfSnoc(Select(rows, into, key), r, of);
    }
  }

  /** Cut into buckets that hold them all, the rows keep their sum. */
  lemma {:induction false} SumOverAll(keys: seq<int>, rows: seq<Row>, into: int -> int, of: Row -> real)
    requires Ordered(false, keys) && forall i | 0 <= i < |rows| :: into(rows[i].ts) in keys
    ensures SumOver(keys, rows, into, of) == SumOf(rows, of)
  {
    if rows == [] {
      SumOverOfNone(keys, into, of);
    } else {
      var before, r := rows[..|rows| - 1], rows[|rows| - 1];
      SumOverAll(keys, before, into, of);
      assert rows == before + [r];
      SumOverOfSnoc(keys, before, r, into, of);
    }
  }

  /** A bar sums up its rows. */
  lemma {:induction false} BarConserves(rows: seq<Row>, bucket: int, of: Row -> real)
    requires rows != [] && Additive(of)
    ensures of(Bar(rows, bucket)) == SumOf(rows, of)
  {
    if |rows| > 1 {
      BarConserves(rows[..|rows| - 1], bucket, of);
    } else {
      assert rows[..0] == [];
    }
  }

  /** The range of a bar holds its open and close if those of its rows do. */
  lemma {:induction false} BarIsSane(rows: seq<Row>, bucket: int)
    requires rows != []
    ensures Bar(rows, bucket).ts == bucket
    ensures AllSane(rows) ==> Sane(Bar(rows, bucket))
  {
    if |rows| > 1 {
      BarIsSane(rows[..|rows| - 1], bucket);
    }
  }

  lemma {:induction false} SelectIsSane(rows: seq<Row>, into: int -> int, bucket: int)
    ensures AllSane(rows) ==> AllSane(Select(rows, into, bucket))
  {
    if rows != [] {
      SelectIsSane(rows[..|rows| - 1], into, bucket);
    }
  }

  /** These are the bars of these buckets. */
  ghost predicate BarsOf(keys: seq<int>, rows: seq<Row>, into: int -> int, bars: seq<Row>) {
    |bars| == |keys| && forall i | 0 <= i < |keys| ::
      Select(rows, into, keys[i]) != [] && bars[i] == Bar(Select(rows, into, keys[i]), keys[i])
  }

  lemma {:induction false} SumOfBars(keys: seq<int>, rows: seq<Row>, into: int -> int, bars: seq<Row>, of: Row -> real)
    requires BarsOf(keys, rows, into, bars) && Additive(of)
    ensures SumOf(bars, of) == SumOver(keys, rows, into, of)
    decreases |keys|
  {
    if keys != [] {
      var n := |keys| - 1;
      SumOfBars(keys[..n], rows, into, bars[..n], of);
      BarConserves(Select(rows, into, keys[n]), keys[n], of);
    }
  }

  lemma GroupedIsBarsOf(rows: seq<Row>, into: int -> int)
    ensures BarsOf(InOrder(false, Buckets(rows, into)), rows, into, Grouped(rows, into))
  {
    var keys := InOrder(false, Buckets(rows, into));
    forall i | 0 <= i < |keys| ensures Select(rows, into, keys[i]) != [] {
      SelectSome(rows, into, keys[i]);
    }
  }

  lemma GroupedKeepsSum(rows: seq<Row>, into: int -> int, of: Row -> real)
    requires Additive(of)
    ensures SumOf(Grouped(rows, into), of) == SumOf(rows, of)
  {
    var keys := InOrder(false, Buckets(rows, into));
    InOrderIsOrdered(false, Buckets(rows, into));
    GroupedIsBarsOf(rows, into);
    SumOfBars(keys, rows, into, Grouped(rows, into), of);
    SumOverAll(keys, rows, into, of);
  }

  /** Each bar lies on its bucket, and a bucket has a bar exactly when some row falls into it. */
  lemma GroupedBars(rows: seq<Row>, into: int -> int)
    ensures TimesOf(Grouped(rows, into)) == InOrder(false, Buckets(rows, into))
    ensures AllSane(rows) ==> AllSane(Grouped(rows, into))
  {
    var keys, bars := InOrder(false, Buckets(rows, into)), Grouped(rows, into);
    GroupedIsBarsOf(rows, into);
    forall i | 0 <= i < |keys|
      ensures bars[i].ts == keys[i] && (AllSane(rows) ==> Sane(bars[i]))
    {
      SelectIsSane(rows, into, keys[i]);
      BarIsSane(Select(rows, into, keys[i]), keys[i]);
    }
  }

  function Traded(): Row -> real { (r: Row) => r.trades as real }

  lemma {:induction false} SumByQuantity(rows: seq<Row>)
    ensures Sum(rows).volume == SumOf(rows, (r: Row) => r.volume)
    ensures Sum(rows).trades as real == SumOf(rows, Traded())
    ensures Sum(rows).takerBase == SumOf(rows, (r: Row) => r.takerBase)
    ensures Sum(rows).takerQuote == SumOf(rows, (r: Row) => r.takerQuote)
  {
    if rows != [] {
      SumByQuantity(rows[..|rows| - 1]);
    }
  }

  /** Grouping by bucket loses nothing and counts nothing twice, whatever the order of the rows. */
  lemma GroupedConserves(rows: seq<Row>, into: int -> int)
    ensures Sum(Grouped(rows, into)) == Sum(rows)
  {
    GroupedKeepsSum(rows, into, (r: Row) => r.volume);
    GroupedKeepsSum(rows, into, Traded());
    GroupedKeepsSum(rows, into, (r: Row) => r.takerBase);
    GroupedKeepsSum(rows, into, (r: Row) => r.takerQuote);
    SumByQuantity(rows);
    SumByQuantity(Grouped(rows, into));
  }

  /** Accepted bars conserve the rows they are made of, in either mode and for rows in any order. */
  lemma AcceptedConserves(rows: seq<Row>, step: int, dropPartial: bool)
    requires step > 0 && Agg(rows, step, dropPartial).Bars?
    ensures var kept, bars := Cleaned(rows, step, dropPartial), Agg(rows, step, dropPartial).bars;
      && Sum(bars) == Sum(kept)
      && (AllSane(kept) ==> AllSane(bars))
      && TimesOf(bars) == InOrder(false, Buckets(kept, Into(step)))
      && NoGaps(TimesOf(bars), step)
      && (forall i | 0 <= i < |bars| :: bars[i].ts % step == 0)
  {
    var kept, bars := Cleaned(rows, step, dropPartial), Agg(rows, step, dropPartial).bars;
    GroupedConserves(kept, Into(step));
    GroupedBars(kept, Into(step));
    forall i | 0 <= i < |bars| ensures bars[i].ts % step == 0 {
      assert TimesOf(bars)[i] in Buckets(kept, Into(step));
      var k :| 0 <= k < |kept| && Floor(kept[k].ts, step) == bars[i].ts;
      FloorBounds(kept[k].ts, step);
    }
  }

  // ---------- the loops ----------

  /** The edge checks over the groups of the symbols. */
  method CheckEdges(groups: seq<seq<Row>>, step: int, dropPartial: bool) returns (cleaned: seq<seq<Row>>, problems: seq<nat>)
    requires step > 0 && forall i | 0 <= i < |groups| :: groups[i] != []
    ensures |cleaned| == |groups|
    ensures forall i | 0 <= i < |groups| ::
      cleaned[i] == Cleaned(groups[i], step, dropPartial)
    ensures problems == [] <==> dropPartial || forall i | 0 <= i < |groups| :: EdgesOk(groups[i], step)
  {
    cleaned, problems := [], [];
    for i := 0 to |groups|
      invariant |cleaned| == i
      invariant forall k | 0 <= k < i ::
        cleaned[k] == Cleaned(groups[k], step, dropPartial)
      invariant problems == [] <==> dropPartial || forall k | 0 <= k < i :: EdgesOk(groups[k], step)
    {
      var g := groups[i];
      if EdgesOk(g, step) {
        cleaned := cleaned + [g];
      } else if !dropPartial {
        problems := problems + [i];
        cleaned := cleaned + [g];
      } else {
        cleaned := cleaned + [Trimmed(g, step)];
      }
    }
  }

  /** The neighbours that are not one step apart, in order. */
  function OffendingPairs(ts: seq<int>, step: int): seq<(int, int)> {
    if |ts| < 2 then [] else
      var before, last := ts[|ts| - 2], ts[|ts| - 1];
      OffendingPairs(ts[..|ts| - 1], step) + (if last - before != step then [(before, last)] else [])
  }

  ghost predicate Offends(ts: seq<int>, step: int, p: (int, int)) {
    exists i, j :: 0 <= i < j < |ts| && NextTo(i, j) && p == (ts[i], ts[j]) && ts[j] - ts[i] != step
  }

  lemma OffendsOfSnoc(ts: seq<int>, t: int, step: int, p: (int, int))
    requires ts != []
    ensures Offends(ts + [t], step, p) <==>
      Offends(ts, step, p) || (t - ts[|ts| - 1] != step && p == (ts[|ts| - 1], t))
  {
    var all, n := ts + [t], |ts|;
    if Offends(all, step, p) {
      var i, j :| 0 <= i < j < |all| && NextTo(i, j) && p == (all[i], all[j]) && all[j] - all[i] != step;
      assert j < n ==> p == (ts[i], ts[j]);
    }
    if Offends(ts, step, p) {
      var i, j :| 0 <= i < j < |ts| && NextTo(i, j) && p == (ts[i], ts[j]) && ts[j] - ts[i] != step;
      assert p == (all[i], all[j]);
    }
    assert NextTo(n - 1, n) && all[n] == t && all[n - 1] == ts[n - 1];
  }

  /** There are offending neighbours, each of them listed, exactly where there is a gap or a duplicate. */
  lemma {:induction false} PairsAreOffenders(ts: seq<int>, step: int, p: (int, int))
    ensures OffendingPairs(ts, step) == [] <==> NoGaps(ts, step)
    ensures p in OffendingPairs(ts, step) <==>
              exists i, j :: 0 <= i < j < |ts| && NextTo(i, j) && p == (ts[i], ts[j]) && ts[j] - ts[i] != step
  {
    if |ts| >= 2 {
      var front, t := ts[..|ts| - 1], ts[|ts| - 1];
      PairsAreOffenders(front, step, p);
      assert Offends(front, step, p) <==> p in OffendingPairs(front, step);
      OffendsOfSnoc(front, t, step, p);
      NoGapsOfSnoc(front, t, step);
      assert ts == front + [t];
      assert Offends(ts, step, p) <==> p in OffendingPairs(ts, step);
    }
  }

  lemma NoGapsOfSnoc(ts: seq<int>, t: int, step: int)
    requires ts != []
    ensures NoGaps(ts + [t], step) <==> NoGaps(ts, step) && t - ts[|ts| - 1] == step
  {
    var all := ts + [t];
    assert all[|ts|] == t && all[|ts| - 1] == ts[|ts| - 1];
    if NoGaps(all, step) {
      forall i, j | 0 <= i < |ts| && 0 <= j < |ts| && j == i + 1 ensures ts[j] - ts[i] == step {
        assert all[j] - all[i] == step;
      }
    }
  }

  /** The gap check over the times of the bars of one symbol. */
  method GapProblems(ts: seq<int>, step: int) returns (problems: seq<(int, int)>)
    ensures problems == OffendingPairs(ts, step)
    ensures problems == [] <==> NoGaps(ts, step)
  {
    problems := [];
    var i := 1;
    while i < |ts|
      invariant 1 <= i
      invariant problems == if i <= |ts| then OffendingPairs(ts[..i], step) else []
      invariant i > |ts| ==> ts == []
    {
      assert ts[..i + 1][..i] == ts[..i];
      if ts[i] - ts[i - 1] != step {
        problems := problems + [(ts[i - 1], ts[i])];
      }
      i := i + 1;
    }
    assert ts[..|ts|] == ts;
    PairsAreOffenders(ts, step, (0, 0));
  }

  /** `_agg` over all symbols: one symbol that is rejected rejects them all. */
  method Aggregate(groups: seq<seq<Row>>, step: int, dropPartial: bool) returns (accepted: bool, bars: seq<seq<Row>>)
    requires step > 0 && forall i | 0 <= i < |groups| :: groups[i] != []
    ensures accepted <==> forall i | 0 <= i < |groups| :: Agg(groups[i], step, dropPartial).Bars?
    ensures accepted ==> |bars| == |groups| && forall i | 0 <= i < |groups| :: Agg(groups[i], step, dropPartial) == Bars(bars[i])
  {
    bars := [];
    var cleaned, problems := CheckEdges(groups, step, dropPartial);
    RejectedByEdges(groups, step, dropPartial);
    if problems != [] {
      return false, [];
    }
    accepted := true;
    for i := 0 to |cleaned|
      invariant |bars| == i
      invariant AllSoFar(groups, step, dropPartial, i, accepted, bars)
    {
      var out := Grouped(cleaned[i], Into(step));
      var gaps := GapProblems(TimesOf(out), step);
      NextSymbol(groups, step, dropPartial, i, accepted, bars, cleaned[i]);
      bars := bars + [out];
      accepted := accepted && gaps == [];
    }
    assert Open(0, SYMBOLS);
  }

  const SYMBOLS: int := 21

  ghost predicate AllSoFar(groups: seq<seq<Row>>, step: int, dropPartial: bool, i: nat, accepted: bool, bars: seq<seq<Row>>) {
    step > 0 && |bars| == i <= |groups| && forall x {:trigger Open(x, SYMBOLS)} :: Open(x, SYMBOLS) ==>
      && (accepted <==> forall k | 0 <= k < i :: Agg(groups[k], step, dropPartial).Bars?)
      && (accepted ==> forall k | 0 <= k < i :: Agg(groups[k], step, dropPartial) == Bars(bars[k]))
  }

  lemma NextSymbol(groups: seq<seq<Row>>, step: int, dropPartial: bool, i: nat, accepted: bool, bars: seq<seq<Row>>, cleaned: seq<Row>)
    requires AllSoFar(groups, step, dropPartial, i, accepted, bars) && i < |groups| && groups[i] != []
    requires EdgesOk(groups[i], step) || dropPartial
    requires cleaned == Cleaned(groups[i], step, dropPartial)
    ensures var out := Grouped(cleaned, Into(step));
      AllSoFar(groups, step, dropPartial, i + 1, accepted && NoGaps(TimesOf(out), step), bars + [out])
  {
    assert Open(0, SYMBOLS);
    AggOfCleaned(groups[i], step, dropPartial, cleaned);
  }

  lemma AggOfCleaned(rows: seq<Row>, step: int, dropPartial: bool, cleaned: seq<Row>)
    requires step > 0 && rows != [] && (EdgesOk(rows, step) || dropPartial)
    requires cleaned == Cleaned(rows, step, dropPartial)
    ensures var out := Grouped(cleaned, Into(step));
      Agg(rows, step, dropPartial) == if NoGaps(TimesOf(out), step) then Bars(out) else Rejected
  {
  }

  lemma RejectedByEdges(groups: seq<seq<Row>>, step: int, dropPartial: bool)
    requires step > 0 && forall i | 0 <= i < |groups| :: groups[i] != []
    ensures forall i | 0 <= i < |groups| && !dropPartial && !EdgesOk(groups[i], step) :: Agg(groups[i], step, dropPartial) == Rejected
  {
  }
}
