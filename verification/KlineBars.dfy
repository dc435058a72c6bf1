/** What an accepted bar says about the rows of its bucket, and which rows the edge checks look at, keep and
    drop. */
module KlineBars {
  import opened KeyOrder
  import opened Reals
  import opened Klines

  // ---------- the rows of a bucket ----------

  ghost predicate InBucket(rows: seq<Row>, into: int -> int, bucket: int, k: nat) {
    k < |rows| && into(rows[k].ts) == bucket
  }

  /** The bucket's first row in frame order. */
  ghost predicate FirstIn(rows: seq<Row>, into: int -> int, bucket: int, k: nat) {
    InBucket(rows, into, bucket, k) && forall i: nat | i < k :: !InBucket(rows, into, bucket, i)
  }

  ghost predicate LastIn(rows: seq<Row>, into: int -> int, bucket: int, k: nat) {
    InBucket(rows, into, bucket, k) && forall i: nat | i > k :: !InBucket(rows, into, bucket, i)
  }

  ghost predicate OpensAt(rows: seq<Row>, into: int -> int, bucket: int, price: real) {
    exists k: nat :: FirstIn(rows, into, bucket, k) && rows[k].open == price
  }

  ghost predicate ClosesAt(rows: seq<Row>, into: int -> int, bucket: int, price: real) {
    exists k: nat :: LastIn(rows, into, bucket, k) && rows[k].close == price
  }

  ghost predicate PeaksAt(rows: seq<Row>, into: int -> int, bucket: int, price: real) {
    && (exists k: nat :: InBucket(rows, into, bucket, k) && rows[k].high == price)
    && forall k: nat | InBucket(rows, into, bucket, k) :: rows[k].high <= price
  }

  ghost predicate BottomsAt(rows: seq<Row>, into: int -> int, bucket: int, price: real) {
    && (exists k: nat :: InBucket(rows, into, bucket, k) && rows[k].low == price)
    && forall k: nat | InBucket(rows, into, bucket, k) :: rows[k].low >= price
  }

  /** The sum of a quantity over the bucket's rows. */
  function SumIn(rows: seq<Row>, into: int -> int, bucket: int, of: Row -> real): real {
    if rows == [] then 0.0 else
      var last := rows[|rows| - 1];
      SumIn(rows[..|rows| - 1], into, bucket, of) + (if into(last.ts) == bucket then of(last) else 0.0)
  }

  // ---------- one more row ----------

  lemma BucketOfSnoc(rows: seq<Row>, r: Row, into: int -> int, bucket: int, k: nat)
    ensures InBucket(rows + [r], into, bucket, k) <==>
      InBucket(rows, into, bucket, k) || (k == |rows| && into(r.ts) == bucket)
  {
  }

  lemma OpensOfSnoc(rows: seq<Row>, r: Row, into: int -> int, bucket: int, price: real)
    requires OpensAt(rows, into, bucket, price)
    ensures OpensAt(rows + [r], into, bucket, price)
  {
    var k: nat :| FirstIn(rows, into, bucket, k) && rows[k].open == price;
    forall i: nat | i < k ensures !InBucket(rows + [r], into, bucket, i) {
      BucketOfSnoc(rows, r, into, bucket, i);
      assert !InBucket(rows, into, bucket, i);
    }
    assert FirstIn(rows + [r], into, bucket, k) && (rows + [r])[k] == rows[k];
  }

  lemma ClosesOfSnoc(rows: seq<Row>, r: Row, into: int -> int, bucket: int, price: real)
    requires if into(r.ts) == bucket then price == r.close else ClosesAt(rows, into, bucket, price)
    ensures ClosesAt(rows + [r], into, bucket, price)
  {
    var k: nat := |rows|;
    if into(r.ts) != bucket {
      k :| LastIn(rows, into, bucket, k) && rows[k].close == price;
    }
    forall i: nat | i > k ensures !InBucket(rows + [r], into, bucket, i) {
      BucketOfSnoc(rows, r, into, bucket, i);
      assert into(r.ts) != bucket ==> !InBucket(rows, into, bucket, i);
    }
    assert LastIn(rows + [r], into, bucket, k) && (rows + [r])[k].close == price;
  }

  lemma RangeOfSnoc(rows: seq<Row>, r: Row, into: int -> int, bucket: int, high: real, low: real)
    requires PeaksAt(rows, into, bucket, high) && BottomsAt(rows, into, bucket, low)
    ensures into(r.ts) != bucket ==>
      PeaksAt(rows + [r], into, bucket, high) && BottomsAt(rows + [r], into, bucket, low)
    ensures into(r.ts) == bucket ==>
      PeaksAt(rows + [r], into, bucket, Max(high, r.high)) && BottomsAt(rows + [r], into, bucket, Min(low, r.low))
  {
    var all := rows + [r];
    var k: nat :| InBucket(rows, into, bucket, k) && rows[k].high == high;
    var j: nat :| InBucket(rows, into, bucket, j) && rows[j].low == low;
    assert InBucket(all, into, bucket, k) && all[k] == rows[k];
    assert InBucket(all, into, bucket, j) && all[j] == rows[j];
    if into(r.ts) == bucket {
      assert InBucket(all, into, bucket, |rows|) && all[|rows|] == r;
    }
    forall i: nat | InBucket(all, into, bucket, i)
      ensures i < |rows| ==> all[i].high <= high && all[i].low >= low
      ensures i >= |rows| ==> all[i] == r && into(r.ts) == bucket
    {
      BucketOfSnoc(rows, r, into, bucket, i);
    }
  }

  lemma FirstOfBucket(rows: seq<Row>, r: Row, into: int -> int, bucket: int)
    requires Select(rows, into, bucket) == [] && into(r.ts) == bucket
    ensures OpensAt(rows + [r], into, bucket, r.open)
    ensures PeaksAt(rows + [r], into, bucket, r.high) && BottomsAt(rows + [r], into, bucket, r.low)
  {
    var all := rows + [r];
    NoneSelected(rows, into, bucket);
    forall i: nat ensures InBucket(all, into, bucket, i) <==> i == |rows| {
      BucketOfSnoc(rows, r, into, bucket, i);
    }
    assert FirstIn(all, into, bucket, |rows|) && all[|rows|] == r;
  }

  lemma NoneSelected(rows: seq<Row>, into: int -> int, bucket: int)
    requires Select(rows, into, bucket) == []
    ensures forall i: nat :: !InBucket(rows, into, bucket, i)
  {
    SelectSome(rows, into, bucket);
    forall i: nat ensures !InBucket(rows, into, bucket, i) {
      assert i < |rows| ==> into(rows[i].ts) in Buckets(rows, into);
    }
  }

  // ---------- what a bar says ----------

  /** A bar against the rows of its bucket. */
  ghost predicate Says(rows: seq<Row>, into: int -> int, bar: Row) {
    && OpensAt(rows, into, bar.ts, bar.open)
    && ClosesAt(rows, into, bar.ts, bar.close)
    && PeaksAt(rows, into, bar.ts, bar.high)
    && BottomsAt(rows, into, bar.ts, bar.low)
  }

  lemma SaysOfSnoc(rows: seq<Row>, r: Row, into: int -> int, bar: Row)
    requires Says(rows, into, bar)
    ensures Says(rows + [r], into, if into(r.ts) == bar.ts then Merge(bar, r) else bar)
  {
    OpensOfSnoc(rows, r, into, bar.ts, bar.open);
    ClosesOfSnoc(rows, r, into, bar.ts, if into(r.ts) == bar.ts then r.close else bar.close);
    RangeOfSnoc(rows, r, into, bar.ts, bar.high, bar.low);
  }

  lemma SaysAtFirst(rows: seq<Row>, r: Row, into: int -> int, bucket: int)
    requires Select(rows, into, bucket) == [] && into(r.ts) == bucket
    ensures Says(rows + [r], into, Bar([r], bucket))
  {
    FirstOfBucket(rows, r, into, bucket);
    ClosesOfSnoc(rows, r, into, bucket, r.close);
  }

  lemma {:induction false} BarSays(rows: seq<Row>, into: int -> int, bucket: int)
    requires Select(rows, into, bucket) != []
    ensures Says(rows, into, Bar(Select(rows, into, bucket), bucket))
  {
    var before, r := rows[..|rows| - 1], rows[|rows| - 1];
    assert rows == before + [r];
    SelectOfSnoc(before, r, into, bucket);
    if Select(before, into, bucket) == [] {
      SaysAtFirst(before, r, into, bucket);
    } else {
      BarSays(before, into, bucket);
      var chosen := Select(before, into, bucket);
      BarIsSane(chosen, bucket);
      SaysOfSnoc(before, r, into, Bar(chosen, bucket));
      if into(r.ts) == bucket {
        BarOfSnoc(chosen, r, bucket);
      }
    }
  }

  lemma SumInOfSnoc(rows: seq<Row>, r: Row, into: int -> int, bucket: int, of: Row -> real)
    ensures SumIn(rows + [r], into, bucket, of) ==
      SumIn(rows, into, bucket, of) + (if into(r.ts) == bucket then of(r) else 0.0)
  {
    assert (rows + [r])[..|rows|] == rows;
  }

  lemma SelectedSum(rows: seq<Row>, r: Row, into: int -> int, bucket: int, of: Row -> real)
    requires SumOf(Select(rows, into, bucket), of) == SumIn(rows, into, bucket, of)
    ensures SumOf(Select(rows + [r], into, bucket), of) == SumIn(rows + [r], into, bucket, of)
  {
    SelectOfSnoc(rows, r, into, bucket);
    SumInOfSnoc(rows, r, into, bucket, of);
    SumOfSnoc(Select(rows, into, bucket), r, of);
  }

  lemma {:induction false} SumOfSelected(rows: seq<Row>, into: int -> int, bucket: int, of: Row -> real)
    ensures SumOf(Select(rows, into, bucket), of) == SumIn(rows, into, bucket, of)
  {
    if rows != [] {
      var before, r := rows[..|rows| - 1], rows[|rows| - 1];
      SumOfSelected(before, into, bucket, of);
      SelectedSum(before, r, into, bucket, of);
      assert rows == before + [r];
    }
  }

  lemma GroupedSays(rows: seq<Row>, into: int -> int, i: nat)
    requires i < |Grouped(rows, into)|
    ensures var bar := Grouped(rows, into)[i];
      Says(rows, into, bar) && forall of | Additive(of) :: of(bar) == SumIn(rows, into, bar.ts, of)
  {
    var key := InOrder(false, Buckets(rows, into))[i];
    GroupedIsBarsOf(rows, into);
    var chosen := Select(rows, into, key);
    BarIsSane(chosen, key);
    BarSays(rows, into, key);
    forall of | Additive(of) ensures of(Bar(chosen, key)) == SumIn(rows, into, key, of) {
      BarConserves(chosen, key, of);
      SumOfSelected(rows, into, key, of);
    }
  }

  lemma QuantitiesAreAdditive()
    ensures Additive((r: Row) => r.volume) && Additive(Traded())
    ensures Additive((r: Row) => r.takerBase) && Additive((r: Row) => r.takerQuote)
  {
  }

  /** In either mode, for rows in any order: an accepted bar opens with the first and closes with the last row of
      its bucket, its high and low are those of some row and bound those of all, and its volumes and counts are
      the sums over its bucket. */
  lemma AcceptedSays(rows: seq<Row>, step: int, dropPartial: bool, i: nat)
    requires step > 0 && Agg(rows, step, dropPartial).Bars? && i < |Agg(rows, step, dropPartial).bars|
    ensures var kept, bar := Cleaned(rows, step, dropPartial), Agg(rows, step, dropPartial).bars[i];
      && Says(kept, Into(step), bar)
      && bar.volume == SumIn(kept, Into(step), bar.ts, (r: Row) => r.volume)
      && bar.trades as real == SumIn(kept, Into(step), bar.ts, Traded())
      && bar.takerBase == SumIn(kept, Into(step), bar.ts, (r: Row) => r.takerBase)
      && bar.takerQuote == SumIn(kept, Into(step), bar.ts, (r: Row) => r.takerQuote)
  {
    GroupedSays(Cleaned(rows, step, dropPartial), Into(step), i);
    QuantitiesAreAdditive();
  }

  // ---------- the edges ----------

  /** The earliest and the latest timestamp. */
  ghost predicate Spans(rows: seq<Row>, first: int, last: int) {
    && (exists i :: 0 <= i < |rows| && rows[i].ts == first)
    && (exists i :: 0 <= i < |rows| && rows[i].ts == last)
    && forall i | 0 <= i < |rows| :: first <= rows[i].ts <= last
  }

  ghost predicate IsTime(rows: seq<Row>, t: int) {
    exists i :: 0 <= i < |rows| && rows[i].ts == t
  }

  lemma TimesAre(rows: seq<Row>)
    ensures Ordered(false, Times(rows))
    ensures forall t :: t in Times(rows) <==> IsTime(rows, t)
  {
    var times := set i | 0 <= i < |rows| :: rows[i].ts;
    InOrderIsOrdered(false, times);
    forall t ensures t in Times(rows) <==> IsTime(rows, t) {
      assert t in Times(rows) <==> t in times;
    }
  }

  lemma OrderedEnds(ts: seq<int>, i: nat)
    requires Ordered(false, ts) && i < |ts|
    ensures ts[0] <= ts[i] <= ts[|ts| - 1]
  {
    assert i > 0 ==> Before(false, ts[0], ts[i]);
    assert i < |ts| - 1 ==> Before(false, ts[i], ts[|ts| - 1]);
  }

  lemma TimesSpan(rows: seq<Row>, first: int, last: int)
    requires Spans(rows, first, last)
    ensures Times(rows) != [] && Times(rows)[0] == first && Times(rows)[|Times(rows)| - 1] == last
  {
    var ts := Times(rows);
    TimesAre(rows);
    assert IsTime(rows, first) && IsTime(rows, last);
    var i :| 0 <= i < |ts| && ts[i] == first;
    var j :| 0 <= j < |ts| && ts[j] == last;
    assert ts[0] in ts && IsTime(rows, ts[0]);
    assert ts[|ts| - 1] in ts && IsTime(rows, ts[|ts| - 1]);
    OrderedEnds(ts, i);
    OrderedEnds(ts, j);
  }

  /** The edges are fine exactly if the earliest row starts a window and the latest, with the base step, ends one. */
  lemma EdgesExactly(rows: seq<Row>, step: int, first: int, last: int)
    requires step > 0 && Spans(rows, first, last)
    ensures rows != [] && (EdgesOk(rows, step) <==> first % step == 0 && (last + BaseStep(Times(rows), step)) % step == 0)
  {
    TimesSpan(rows, first, last);
  }

  lemma {:induction false} LeastDiffBounds(ts: seq<int>, i: nat, j: nat)
    requires Ordered(false, ts) && i < j < |ts|
    ensures ts[j] - ts[i] >= LeastDiff(ts)
  {
    var n := |ts| - 1;
    if j < n {
      LeastDiffBounds(ts[..n], i, j);
    } else if i < n - 1 {
      assert Before(false, ts[i], ts[n - 1]);
    }
  }

  lemma {:induction false} LeastDiffAttained(ts: seq<int>) returns (k: nat)
    requires |ts| >= 2
    ensures k < |ts| - 1 && ts[k + 1] - ts[k] == LeastDiff(ts)
  {
    var n := |ts| - 1;
    k := n - 1;
    if |ts| > 2 && ts[n] - ts[n - 1] >= LeastDiff(ts[..n]) {
      k := LeastDiffAttained(ts[..n]);
    }
  }

  lemma Places(ts: seq<int>, k: nat, l: nat)
    requires Ordered(false, ts) && k < |ts| && l < |ts|
    ensures ts[k] < ts[l] ==> k < l
  {
    if l < k {
      assert Before(false, ts[l], ts[k]);
    }
  }

  /** The base step is the least difference of two different timestamps, or the target step if there is only one. */
  lemma BaseStepExactly(rows: seq<Row>, step: int, i: nat, j: nat)
    requires i < |rows| && j < |rows|
    ensures var base := BaseStep(Times(rows), step);
      && (rows[i].ts < rows[j].ts ==> 0 < base <= rows[j].ts - rows[i].ts)
      && (rows[i].ts < rows[j].ts ==> exists a, b :: IsTime(rows, a) && IsTime(rows, b) && b - a == base)
      && ((forall k | 0 <= k < |rows| :: rows[k].ts == rows[0].ts) ==> base == step)
  {
    var ts := Times(rows);
    TimesAre(rows);
    if rows[i].ts < rows[j].ts {
      assert IsTime(rows, rows[i].ts) && IsTime(rows, rows[j].ts);
      var k :| 0 <= k < |ts| && ts[k] == rows[i].ts;
      var l :| 0 <= l < |ts| && ts[l] == rows[j].ts;
      Places(ts, k, l);
      LeastDiffBounds(ts, k, l);
      LeastDiffIsTimes(rows);
    } else if |ts| >= 2 {
      assert ts[0] in ts && ts[1] in ts && Before(false, ts[0], ts[1]);
      var a :| 0 <= a < |rows| && rows[a].ts == ts[0];
      var b :| 0 <= b < |rows| && rows[b].ts == ts[1];
      assert rows[a].ts != rows[0].ts || rows[b].ts != rows[0].ts;
    }
  }

  lemma LeastDiffIsTimes(rows: seq<Row>)
    requires |Times(rows)| >= 2
    ensures LeastDiff(Times(rows)) > 0
    ensures exists a, b :: IsTime(rows, a) && IsTime(rows, b) && b - a == LeastDiff(Times(rows))
  {
    var ts := Times(rows);
    TimesAre(rows);
    var c := LeastDiffAttained(ts);
    assert ts[c] in ts && ts[c + 1] in ts && Before(false, ts[c], ts[c + 1]);
    assert IsTime(rows, ts[c]) && IsTime(rows, ts[c + 1]);
  }

  lemma {:induction false} KeepMembers(rows: seq<Row>, from: int, until: int, r: Row)
    ensures r in Keep(rows, from, until) <==> r in rows && from <= r.ts < until
  {
    if rows != [] {
      var front := rows[..|rows| - 1];
      KeepMembers(front, from, until, r);
      assert rows == front + [rows[|rows| - 1]];
    }
  }

  /** Dropping the edges drops exactly the rows in the window of the earliest row, if that does not start it, and
      those in the window of the latest, if that does not end it. */
  lemma TrimmedExactly(rows: seq<Row>, step: int, first: int, last: int, r: Row)
    requires step > 0 && Spans(rows, first, last)
    ensures r in Trimmed(rows, step) <==>
      && r in rows
      && (Floor(r.ts, step) == Floor(first, step) ==> first % step == 0)
      && (Floor(r.ts, step) == Floor(last, step) ==> (last + BaseStep(Times(rows), step)) % step == 0)
  {
    TimesSpan(rows, first, last);
    var ts := Times(rows);
    KeepMembers(rows, Floor(first, step) + (if StartOk(ts, step) then 0 else step),
      Floor(last, step) + (if EndOk(ts, step) then step else 0), r);
    if r in rows {
      FloorBounds(r.ts, step);
      FloorBounds(first, step);
      FloorBounds(last, step);
      FloorGrows(first, r.ts, step);
      FloorGrows(r.ts, last, step);
    }
  }
}
