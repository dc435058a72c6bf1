/** The plan for fetching missing klines: gap detection over the cached timestamps, the cut at window
    edges, the split into requests, and the proof that the requests tile exactly what is missing. */
module FetchPlan {
  import opened Division
  import opened Folded
  import opened Sequences
  import opened Sorting

  /** A gap, both ends included. */
  datatype Range = Range(first: int, last: int)

  /** One request: `bars` slots from `startMs` on. */
  datatype FetchTask = FetchTask(startMs: int, bars: int)

  const DAY_MS := 86_400_000

  /** The steps of `INTERVAL_TO_MS`. */
  const STEPS := {60_000, 180_000, 300_000, 900_000, 1_800_000, 3_600_000, 7_200_000, 14_400_000,
                  21_600_000, 28_800_000, 43_200_000, 86_400_000}

  function Max(a: int, b: int): int {
    if a < b then b else a
  }

  function Min(a: int, b: int): int {
    if b < a then b else a
  }

  // ---------- alignment ----------

  /** `_align_range`; Python's floor division is Dafny's for a positive step. */
  function AlignRange(startMs: int, endMs: int, step: int): (int, int)
    requires step > 0
  {
    ((startMs / step) * step, ((endMs + step - 1) / step) * step)
  }

  /** The aligned range is the smallest one on the grid that contains the given one. */
  lemma AlignedIsSmallest(startMs: int, endMs: int, step: int, a: int, b: int)
    requires step > 0
    ensures var (s, e) := AlignRange(startMs, endMs, step);
      && s % step == 0 && e % step == 0
      && s <= startMs < s + step
      && e - step < endMs <= e
      && (a % step == 0 && a <= startMs ==> a <= s)
      && (b % step == 0 && endMs <= b ==> e <= b)
  {
    var (s, e) := AlignRange(startMs, endMs, step);
    MultipleMod(startMs / step, step);
    MultipleMod((endMs + step - 1) / step, step);
    if a % step == 0 && a <= startMs {
      MultiplesApart(a, s, step);
    }
    if b % step == 0 && endMs <= b {
      MultiplesApart(e, b, step);
    }
  }

  /** Of two multiples of step, one less than a step above the other is not above it. */
  lemma MultiplesApart(a: int, b: int, step: int)
    requires step > 0 && a % step == 0 && b % step == 0 && a < b + step
    ensures a <= b
  {
    var p, q := a / step, b / step;
    assert a == p * step && b == q * step;
    assert (p - q) * step == p * step - q * step;
    FactorBound(p - q, step);
  }

  // ---------- slots ----------

  /** The k-th slot from `first` on. */
  function At(first: int, k: int, step: int): int {
    first + k * step
  }

  /** The n slots from `first` on. */
  function Slots(first: int, n: nat, step: int): (s: seq<int>)
    ensures |s| == n && forall i | 0 <= i < n :: s[i] == At(first, i, step)
  {
    seq(n, i => At(first, i, step))
  }

  /** `bars_total` of a range. */
  function Bars(r: Range, step: int): int
    requires step > 0
  {
    if r.last < r.first then 0 else (r.last - r.first) / step + 1
  }

  function RangeSlots(ranges: seq<Range>, step: int): seq<int>
    requires step > 0
  {
    if ranges == [] then [] else
      var r := ranges[|ranges| - 1];
      RangeSlots(ranges[..|ranges| - 1], step) + Slots(r.first, Max(0, Bars(r, step)), step)
  }

  function TaskSlots(tasks: seq<FetchTask>, step: int): seq<int> {
    if tasks == [] then [] else
      var t := tasks[|tasks| - 1];
      TaskSlots(tasks[..|tasks| - 1], step) + Slots(t.startMs, Max(0, t.bars), step)
  }

  lemma RangeSlotsOfSnoc(ranges: seq<Range>, r: Range, step: int)
    requires step > 0
    ensures RangeSlots(ranges + [r], step) == RangeSlots(ranges, step) + Slots(r.first, Max(0, Bars(r, step)), step)
  {
    assert (ranges + [r])[..|ranges|] == ranges;
  }

  lemma TaskSlotsOfSnoc(tasks: seq<FetchTask>, t: FetchTask, step: int)
    ensures TaskSlots(tasks + [t], step) == TaskSlots(tasks, step) + Slots(t.startMs, Max(0, t.bars), step)
  {
    assert (tasks + [t])[..|tasks|] == tasks;
  }

  /** A range of n slots on the grid. */
  lemma BarsOf(first: int, n: int, step: int)
    requires step > 0 && n > 0
    ensures Bars(Range(first, At(first, n - 1, step)), step) == n
  {
    assert (n - 1) * step >= 0;
    ModIsUnique((n - 1) * step, n - 1, 0, step);
  }

  lemma AtOfSum(first: int, a: int, b: int, step: int)
    ensures At(At(first, a, step), b, step) == At(first, a + b, step)
  {
    assert a * step + b * step == (a + b) * step;
  }

  lemma AtIsOrdered(first: int, a: int, b: int, step: int)
    requires step > 0
    ensures a < b <==> At(first, a, step) < At(first, b, step)
    ensures a < b ==> At(first, a, step) + step <= At(first, b, step)
    ensures a == b <==> At(first, a, step) == At(first, b, step)
  {
    assert (b - a) * step == b * step - a * step;
    FactorBound(b - a, step);
  }

  lemma SlotsJoin(first: int, a: nat, b: nat, step: int)
    ensures Slots(first, a, step) + Slots(At(first, a, step), b, step) == Slots(first, a + b, step)
  {
    forall i | a <= i < a + b ensures At(At(first, a, step), i - a, step) == At(first, i, step) {
      AtOfSum(first, a, i - a, step);
    }
  }

  // ---------- what is missing ----------

  ghost predicate OnGrid(startMs: int, step: int, u: int) {
    exists k :: u == At(startMs, k, step)
  }

  /** The scan recognises a cached slot unless a cached timestamp off the grid comes before it. */
  ghost predicate Recognised(timestamps: seq<int>, startMs: int, step: int, slot: int) {
    && slot in timestamps
    && forall u | u in timestamps && startMs <= u < slot :: OnGrid(startMs, step, u)
  }

  /** Those of the first n slots that the scan treats as missing, in order. */
  ghost function Missing(timestamps: seq<int>, startMs: int, step: int, n: nat): seq<int> {
    if n == 0 then [] else
      var slot := At(startMs, n - 1, step);
      Missing(timestamps, startMs, step, n - 1)
      + (if Recognised(timestamps, startMs, step, slot) then [] else [slot])
  }

  lemma {:induction false} MissingMembers(timestamps: seq<int>, startMs: int, step: int, n: nat, slot: int)
    ensures slot in Missing(timestamps, startMs, step, n) <==>
      exists i :: 0 <= i < n && slot == At(startMs, i, step) && !Recognised(timestamps, startMs, step, slot)
  {
    if n > 0 {
      MissingMembers(timestamps, startMs, step, n - 1, slot);
      if slot == At(startMs, n - 1, step) && !Recognised(timestamps, startMs, step, slot) {
        assert 0 <= n - 1 < n && slot == At(startMs, n - 1, step);
      }
    }
  }

  ghost predicate Increasing(s: seq<int>) {
    forall i, j | 0 <= i < j < |s| :: s[i] < s[j]
  }

  lemma SnocIncreases(s: seq<int>, x: int)
    requires Increasing(s) && forall i | 0 <= i < |s| :: s[i] < x
    ensures Increasing(s + [x]) && Increasing(s + [])
  {
    assert s + [] == s;
  }

  lemma {:induction false} MissingAscends(timestamps: seq<int>, startMs: int, step: int, n: nat)
    requires step > 0
    ensures Increasing(Missing(timestamps, startMs, step, n))
  {
    if n > 0 {
      MissingAscends(timestamps, startMs, step, n - 1);
      var m := Missing(timestamps, startMs, step, n - 1);
      forall i | 0 <= i < |m| ensures m[i] < At(startMs, n - 1, step) {
        assert m[i] in m;
        MissingMembers(timestamps, startMs, step, n - 1, m[i]);
        var k :| 0 <= k < n - 1 && m[i] == At(startMs, k, step);
        AtIsOrdered(startMs, k, n - 1, step);
      }
      SnocIncreases(m, At(startMs, n - 1, step));
    }
  }

  /** A slot is planned unless it is cached and no off-grid timestamp is cached before it. So no absent slot
      is ever left out, and with all cached timestamps on the grid no cached slot is fetched again. */
  lemma PlannedIff(timestamps: seq<int>, startMs: int, step: int, n: nat, i: int)
    requires step > 0 && 0 <= i < n
    ensures var slot := At(startMs, i, step);
      slot in Missing(timestamps, startMs, step, n) <==>
        slot !in timestamps || exists u :: u in timestamps && startMs <= u < slot && !OnGrid(startMs, step, u)
  {
    var slot := At(startMs, i, step);
    MissingMembers(timestamps, startMs, step, n, slot);
    if !Recognised(timestamps, startMs, step, slot) {
      assert 0 <= i < n && slot == At(startMs, i, step);
    }
  }

  /** Nothing outside the aligned range is planned. */
  lemma PlannedIsInRange(timestamps: seq<int>, startMs: int, step: int, n: nat, slot: int)
    requires step > 0 && slot in Missing(timestamps, startMs, step, n)
    ensures startMs <= slot < At(startMs, n, step) && OnGrid(startMs, step, slot)
  {
    MissingMembers(timestamps, startMs, step, n, slot);
    var i :| 0 <= i < n && slot == At(startMs, i, step);
    AtIsOrdered(startMs, i, n, step);
    AtIsOrdered(startMs, 0, i, step);
  }

  // ---------- gap detection ----------

  ghost predicate Ascending(s: seq<int>) {
    forall i, j | 0 <= i < j < |s| :: s[i] <= s[j]
  }

  function Within(timestamps: seq<int>, startMs: int, endMs: int): seq<int> {
    if timestamps == [] then [] else
      (if startMs <= timestamps[0] < endMs then [timestamps[0]] else []) + Within(timestamps[1..], startMs, endMs)
  }

  lemma {:induction false} WithinIs(timestamps: seq<int>, startMs: int, endMs: int, u: int)
    ensures u in Within(timestamps, startMs, endMs) <==> u in timestamps && startMs <= u < endMs
  {
    if timestamps != [] {
      WithinIs(timestamps[1..], startMs, endMs, u);
      assert timestamps == [timestamps[0]] + timestamps[1..];
    }
  }

  /** `sorted(ts for ts in timestamps if start_ms <= ts < end_ms)`. */
  function SortedWithin(timestamps: seq<int>, startMs: int, endMs: int): seq<int> {
    Sort(Within(timestamps, startMs, endMs), (ts: int) => ts as real)
  }

  lemma SortedWithinIs(timestamps: seq<int>, startMs: int, endMs: int)
    ensures Ascending(SortedWithin(timestamps, startMs, endMs))
    ensures forall u :: u in SortedWithin(timestamps, startMs, endMs) <==> u in timestamps && startMs <= u < endMs
  {
    var within, key := Within(timestamps, startMs, endMs), (ts: int) => ts as real;
    SortShape(within, key);
    forall u ensures u in SortedWithin(timestamps, startMs, endMs) <==> u in timestamps && startMs <= u < endMs {
      SortMembers(within, key, u);
      WithinIs(timestamps, startMs, endMs, u);
    }
  }

  /** The cursor into the sorted timestamps: all before it are recognised slots already passed; the one it
      points at is yet to come, or is off the grid and will never be passed. */
  ghost predicate Cursor(sorted: seq<int>, index: nat, startMs: int, step: int, current: int) {
    index <= |sorted| &&
    forall x {:trigger Open(x, current)} :: Open(x, current) ==>
      && (forall j | 0 <= j < index :: sorted[j] < current && OnGrid(startMs, step, sorted[j]))
      && (index < |sorted| ==> sorted[index] >= current || !OnGrid(startMs, step, sorted[index]))
  }

  lemma CursorRecognises(timestamps: seq<int>, sorted: seq<int>, index: nat, startMs: int, endMs: int, step: int, k: nat)
    requires step > 0 && At(startMs, k, step) < endMs
    requires sorted == SortedWithin(timestamps, startMs, endMs)
    requires Cursor(sorted, index, startMs, step, At(startMs, k, step))
    ensures (index < |sorted| && sorted[index] == At(startMs, k, step)) <==>
            Recognised(timestamps, startMs, step, At(startMs, k, step))
  {
    var current := At(startMs, k, step);
    assert Open(0, current);
    SortedWithinIs(timestamps, startMs, endMs);
    AtIsOrdered(startMs, 0, k, step);
    if index < |sorted| && sorted[index] == current {
      assert sorted[index] in sorted;
      forall u | u in timestamps && startMs <= u < current ensures OnGrid(startMs, step, u) {
        assert u in sorted;
        var j :| 0 <= j < |sorted| && sorted[j] == u;
        assert j < index;
      }
    }
    if Recognised(timestamps, startMs, step, current) {
      assert current in sorted;
      var j :| 0 <= j < |sorted| && sorted[j] == current;
      assert index <= j && sorted[index] in sorted;
    }
  }

  /** Between two neighbouring slots nothing is on the grid. */
  lemma BetweenSlots(startMs: int, step: int, k: int, u: int)
    requires step > 0 && At(startMs, k, step) < u < At(startMs, k, step) + step
    ensures !OnGrid(startMs, step, u)
  {
    forall m ensures u != At(startMs, m, step) {
      AtIsOrdered(startMs, k, m, step);
      AtIsOrdered(startMs, m, k, step);
    }
  }

  lemma NextSlot(startMs: int, k: int, step: int)
    ensures At(startMs, k, step) + step == At(startMs, k + 1, step)
  {
    assert (k + 1) * step == k * step + step;
  }

  lemma CursorStart(sorted: seq<int>, startMs: int, step: int)
    requires forall u | u in sorted :: startMs <= u
    ensures Cursor(sorted, 0, startMs, step, startMs)
  {
    if sorted != [] {
      assert sorted[0] in sorted;
    }
  }

  /** Moving on by one slot, having skipped the timestamps that equal the present one. */
  lemma CursorAdvance(sorted: seq<int>, index: nat, next: nat, startMs: int, step: int, k: int)
    requires step > 0 && Ascending(sorted) && Cursor(sorted, index, startMs, step, At(startMs, k, step))
    requires index <= next <= |sorted|
    requires forall j | index <= j < next :: sorted[j] == At(startMs, k, step)
    requires next < |sorted| ==> sorted[next] != At(startMs, k, step)
    ensures Cursor(sorted, next, startMs, step, At(startMs, k + 1, step))
  {
    var current := At(startMs, k, step);
    assert Open(0, current);
    NextSlot(startMs, k, step);
    assert OnGrid(startMs, step, current);
    if next < |sorted| && current < sorted[next] < current + step {
      BetweenSlots(startMs, step, k, sorted[next]);
    }
  }

  /** The gap from slot a to slot b. */
  function Span(startMs: int, a: int, b: int, step: int): Range {
    Range(At(startMs, a, step), At(startMs, b, step))
  }

  /** A gap of whole slots inside the first n. */
  ghost predicate GridRange(r: Range, startMs: int, step: int, n: int) {
    exists a, b :: 0 <= a <= b < n && r == Span(startMs, a, b, step)
  }

  lemma BarsOfGrid(startMs: int, a: int, b: int, step: int)
    requires step > 0 && a <= b
    ensures Bars(Range(At(startMs, a, step), At(startMs, b, step)), step) == b - a + 1
  {
    AtOfSum(startMs, a, b - a, step);
    BarsOf(At(startMs, a, step), b - a + 1, step);
  }

  /** Between two ranges at least one slot is left out. */
  ghost predicate Apart(ranges: seq<Range>, step: int) {
    forall i, j | 0 <= i < j < |ranges| :: ranges[i].last + step < ranges[j].first
  }

  /** The ranges end at least one slot before anything that begins at `from`. */
  ghost predicate ApartUpTo(ranges: seq<Range>, step: int, from: int) {
    Apart(ranges, step) && forall i | 0 <= i < |ranges| :: ranges[i].last + step < from
  }

  /** After k slots: the closed gaps, and the open one from slot m on, are what is missing of these slots. */
  ghost predicate Gaps(timestamps: seq<int>, startMs: int, step: int, n: int, ranges: seq<Range>,
      open: bool, from: int, m: int, k: int)
  {
    0 <= m <= k <= n && step > 0 && (open ==> m < k && from == At(startMs, m, step)) &&
    forall x {:trigger Open(x, k)} :: Open(x, k) ==>
      && RangeSlots(ranges, step) + (if open then Slots(from, k - m, step) else [])
         == Missing(timestamps, startMs, step, k)
      && ApartUpTo(ranges, step, At(startMs, if open then m else k, step))
      && forall i | 0 <= i < |ranges| :: GridRange(ranges[i], startMs, step, n)
  }

  lemma GapsStart(timestamps: seq<int>, startMs: int, step: int, n: int)
    requires step > 0 && n >= 0
    ensures Gaps(timestamps, startMs, step, n, [], false, 0, 0, 0)
  {
  }

  lemma GapsMiss(timestamps: seq<int>, startMs: int, step: int, n: int, ranges: seq<Range>,
      open: bool, from: int, m: int, k: int)
    requires Gaps(timestamps, startMs, step, n, ranges, open, from, m, k) && k < n
    requires !Recognised(timestamps, startMs, step, At(startMs, k, step))
    ensures if open then Gaps(timestamps, startMs, step, n, ranges, true, from, m, k + 1)
      else Gaps(timestamps, startMs, step, n, ranges, true, At(startMs, k, step), k, k + 1)
  {
    assert Open(0, k);
    if open {
      GapGrows(startMs, m, k, step);
    } else {
      GapGrows(startMs, k, k, step);
    }
  }

  lemma GapsHit(timestamps: seq<int>, startMs: int, step: int, n: int, ranges: seq<Range>,
      open: bool, from: int, m: int, k: int)
    requires Gaps(timestamps, startMs, step, n, ranges, open, from, m, k) && k < n
    requires Recognised(timestamps, startMs, step, At(startMs, k, step))
    ensures var closed := if open then ranges + [Range(from, At(startMs, k - 1, step))] else ranges;
      Gaps(timestamps, startMs, step, n, closed, false, from, m, k + 1)
  {
    if open {
      GapClosed(timestamps, startMs, step, n, ranges, from, m, k);
    } else {
      assert Open(0, k);
      NextSlot(startMs, k, step);
      NothingOpen(ranges, startMs, step, k);
    }
  }

  lemma NothingOpen(ranges: seq<Range>, startMs: int, step: int, k: int)
    requires step > 0 && ApartUpTo(ranges, step, At(startMs, k, step))
    ensures ApartUpTo(ranges, step, At(startMs, k + 1, step))
  {
    NextSlot(startMs, k, step);
  }

  lemma GapClosed(timestamps: seq<int>, startMs: int, step: int, n: int, ranges: seq<Range>, from: int, m: int, k: int)
    requires Gaps(timestamps, startMs, step, n, ranges, true, from, m, k) && k < n
    requires Recognised(timestamps, startMs, step, At(startMs, k, step))
    ensures Gaps(timestamps, startMs, step, n, ranges + [Range(from, At(startMs, k - 1, step))], false, from, m, k + 1)
  {
    assert Open(0, k);
    CloseRange(ranges, startMs, step, m, k, n);
    ClosedApart(ranges, startMs, step, m, k);
  }

  /** A gap that is closed at slot k - 1 leaves slot k out. */
  lemma ClosedApart(ranges: seq<Range>, startMs: int, step: int, m: int, k: int)
    requires step > 0 && m < k && ApartUpTo(ranges, step, At(startMs, m, step))
    ensures ApartUpTo(ranges + [Range(At(startMs, m, step), At(startMs, k - 1, step))], step, At(startMs, k + 1, step))
  {
    NextSlot(startMs, k - 1, step);
    NextSlot(startMs, k, step);
    AtIsOrdered(startMs, m, k, step);
  }

  lemma GapsEnd(timestamps: seq<int>, startMs: int, step: int, n: int, ranges: seq<Range>,
      open: bool, from: int, m: int)
    requires Gaps(timestamps, startMs, step, n, ranges, open, from, m, n)
    ensures var closed := if open then ranges + [Range(from, At(startMs, n - 1, step))] else ranges;
      && RangeSlots(closed, step) == Missing(timestamps, startMs, step, n)
      && Apart(closed, step)
      && forall i | 0 <= i < |closed| :: GridRange(closed[i], startMs, step, n)
  {
    assert Open(0, n);
    if open {
      CloseRange(ranges, startMs, step, m, n, n);
      ClosedApart(ranges, startMs, step, m, n);
    }
  }

  /** The gap that runs from slot m to the slot before k. */
  lemma CloseRange(ranges: seq<Range>, startMs: int, step: int, m: int, k: int, n: int)
    requires step > 0 && 0 <= m < k <= n
    ensures var r := Range(At(startMs, m, step), At(startMs, k - 1, step));
      && RangeSlots(ranges + [r], step) == RangeSlots(ranges, step) + Slots(r.first, k - m, step)
      && GridRange(r, startMs, step, n)
  {
    var r := Range(At(startMs, m, step), At(startMs, k - 1, step));
    BarsOfGrid(startMs, m, k - 1, step);
    RangeSlotsOfSnoc(ranges, r, step);
    assert 0 <= m <= k - 1 < n && r == Span(startMs, m, k - 1, step);
  }

  lemma GapGrows(startMs: int, m: int, k: int, step: int)
    requires m <= k
    ensures Slots(At(startMs, m, step), k - m + 1, step) == Slots(At(startMs, m, step), k - m, step) + [At(startMs, k, step)]
  {
    AtOfSum(startMs, m, k - m, step);
    SlotsJoin(At(startMs, m, step), k - m, 1, step);
    assert Slots(At(startMs, k, step), 1, step) == [At(startMs, k, step)];
  }

  lemma NoSlots(timestamps: seq<int>, startMs: int, step: int, n: int)
    requires step > 0 && startMs >= At(startMs, n, step)
    ensures n <= 0 && Missing(timestamps, startMs, step, 0) == []
  {
    AtIsOrdered(startMs, 0, n, step);
  }

  lemma SomeSlots(startMs: int, step: int, n: int)
    requires step > 0 && startMs < At(startMs, n, step)
    ensures n > 0 && startMs <= At(startMs, n, step) - step == At(startMs, n - 1, step)
  {
    AtIsOrdered(startMs, 0, n, step);
    NextSlot(startMs, n - 1, step);
  }

  /** `_iter_missing_ranges` for a range of n whole slots. */
  method IterMissingRanges(timestamps: seq<int>, startMs: int, endMs: int, step: int, ghost n: int)
    returns (ranges: seq<Range>)
    requires step > 0 && endMs == At(startMs, n, step)
    ensures RangeSlots(ranges, step) == Missing(timestamps, startMs, step, Max(0, n))
    ensures forall i | 0 <= i < |ranges| :: GridRange(ranges[i], startMs, step, n)
    ensures Apart(ranges, step)
  {
    ranges := [];
    if startMs >= endMs {
      NoSlots(timestamps, startMs, step, n);
      return;
    }
    SomeSlots(startMs, step, n);
    var sorted := SortedWithin(timestamps, startMs, endMs);
    SortedWithinIs(timestamps, startMs, endMs);
    var lastValid := endMs - step;
    if lastValid < startMs {
      return;
    }
    CursorStart(sorted, startMs, step);
    GapsStart(timestamps, startMs, step, n);
    var missing, from;
    ghost var m;
    ranges, missing, from, m := ScanSlots(timestamps, sorted, startMs, endMs, step, n);
    GapsEnd(timestamps, startMs, step, n, ranges, missing, from, m);
    if missing {
      ranges := ranges + [Range(from, Min(lastValid, endMs - step))];
    }
  }

  lemma ScanHit(timestamps: seq<int>, startMs: int, step: int, n: int, ranges: seq<Range>,
      open: bool, from: int, m: int, k: int, current: int)
    requires Gaps(timestamps, startMs, step, n, ranges, open, from, m, k) && k < n
    requires current == At(startMs, k, step) && Recognised(timestamps, startMs, step, current)
    ensures Gaps(timestamps, startMs, step, n, if open then ranges + [Range(from, current - step)] else ranges,
              false, from, m, k + 1)
  {
    NeighbouringSlots(startMs, k, n, step);
    GapsHit(timestamps, startMs, step, n, ranges, open, from, m, k);
  }

  /** The loop over the slots; a gap may still be open when it ends. */
  method ScanSlots(ghost timestamps: seq<int>, sorted: seq<int>, startMs: int, endMs: int, step: int, ghost n: int)
    returns (ranges: seq<Range>, missing: bool, from: int, ghost m: int)
    requires step > 0 && n >= 0 && endMs == At(startMs, n, step)
    requires sorted == SortedWithin(timestamps, startMs, endMs) && Ascending(sorted)
    requires Cursor(sorted, 0, startMs, step, startMs)
    requires Gaps(timestamps, startMs, step, n, [], false, 0, 0, 0)
    ensures Gaps(timestamps, startMs, step, n, ranges, missing, from, m, n)
  {
    ranges := [];
    var index, current := 0, startMs;
    missing, from := false, 0;
    ghost var k := 0;
    m := 0;
    AtIsOrdered(startMs, 0, n, step);
    while current < endMs
      invariant 0 <= k <= n && current == At(startMs, k, step)
      invariant current < endMs <==> k < n
      invariant Cursor(sorted, index, startMs, step, current)
      invariant Gaps(timestamps, startMs, step, n, ranges, missing, from, m, k)
      decreases n - k
    {
      CursorRecognises(timestamps, sorted, index, startMs, endMs, step, k);
      NeighbouringSlots(startMs, k, n, step);
      ghost var at := index;
      if index < |sorted| && sorted[index] == current {
        ScanHit(timestamps, startMs, step, n, ranges, missing, from, m, k, current);
        if missing {
          ranges := ranges + [Range(from, current - step)];
          missing := false;
        }
        index := SkipEqual(sorted, index, current);
      } else {
        GapsMiss(timestamps, startMs, step, n, ranges, missing, from, m, k);
        if !missing {
          missing, from, m := true, current, k;
        }
      }
      CursorAdvance(sorted, at, index, startMs, step, k);
      current := current + step;
      k := k + 1;
    }
  }

  lemma NeighbouringSlots(startMs: int, k: int, n: int, step: int)
    requires step > 0
    ensures At(startMs, k - 1, step) == At(startMs, k, step) - step
    ensures At(startMs, k + 1, step) == At(startMs, k, step) + step
    ensures At(startMs, k + 1, step) < At(startMs, n, step) <==> k + 1 < n
  {
    NextSlot(startMs, k, step);
    NextSlot(startMs, k - 1, step);
    AtIsOrdered(startMs, k + 1, n, step);
  }

  method SkipEqual(sorted: seq<int>, start: nat, value: int) returns (index: nat)
    requires start < |sorted| && sorted[start] == value && Ascending(sorted)
    ensures start < index <= |sorted|
    ensures forall j | start <= j < index :: sorted[j] == value
    ensures index < |sorted| ==> sorted[index] > value
  {
    index := start + 1;
    while index < |sorted| && sorted[index] == value
      invariant start < index <= |sorted|
      invariant forall j | start <= j < index :: sorted[j] == value
    {
      index := index + 1;
    }
  }


  // ---------- windows ----------

  /** The windows follow one another without gap, from the first slot to the n-th. */
  ghost predicate TiledBy(windows: seq<Range>, cuts: seq<int>, startMs: int, step: int, n: int) {
    && |cuts| == |windows| + 1
    && cuts[0] == 0
    && cuts[|windows|] == n
    && forall i {:trigger windows[i]} | 0 <= i < |windows| ::
         cuts[i] < cuts[i + 1] && windows[i] == Range(At(startMs, cuts[i], step), At(startMs, cuts[i + 1] - 1, step))
  }

  lemma WindowAt(windows: seq<Range>, cuts: seq<int>, startMs: int, step: int, n: int, i: nat)
    requires TiledBy(windows, cuts, startMs, step, n) && i < |windows|
    ensures cuts[i] < cuts[i + 1] && windows[i] == Span(startMs, cuts[i], cuts[i + 1] - 1, step)
  {
  }

  lemma OneMoreWindow(windows: seq<Range>, cuts: seq<int>, startMs: int, step: int, c: int, c': int, win: Range)
    requires TiledBy(windows, cuts, startMs, step, c) && c < c' && win == Span(startMs, c, c' - 1, step)
    ensures TiledBy(windows + [win], cuts + [c'], startMs, step, c')
  {
    var more := windows + [win];
    forall i | 0 <= i < |more| ensures var next := cuts + [c'];
      next[i] < next[i + 1] && more[i] == Range(At(startMs, next[i], step), At(startMs, next[i + 1] - 1, step))
    {
      if i < |windows| {
        WindowAt(windows, cuts, startMs, step, c, i);
      }
    }
  }

  ghost predicate Tiled(windows: seq<Range>, startMs: int, step: int, n: int) {
    exists cuts :: TiledBy(windows, cuts, startMs, step, n)
  }

  lemma StepDividesDay(step: int)
    requires step in STEPS
    ensures step > 0 && DAY_MS == (DAY_MS / step) * step && DAY_MS / step >= 1
  {
  }

  lemma AtOfProduct(startMs: int, c: int, days: int, perDay: int, step: int)
    requires DAY_MS == perDay * step
    ensures At(startMs, c, step) + days * DAY_MS == At(startMs, c + days * perDay, step)
  {
    assert days * (perDay * step) == (days * perDay) * step;
    assert (c + days * perDay) * step == c * step + (days * perDay) * step;
  }

  lemma MinOfAt(startMs: int, a: int, b: int, step: int)
    requires step > 0
    ensures Min(At(startMs, a, step), At(startMs, b, step)) == At(startMs, Min(a, b), step)
    ensures Max(At(startMs, a, step), At(startMs, b, step)) == At(startMs, Max(a, b), step)
  {
    AtIsOrdered(startMs, a, b, step);
    AtIsOrdered(startMs, b, a, step);
  }

  /** Windows of q slots each, the last one perhaps shorter, that hold the first c of n slots. */
  ghost predicate DayWindows(windows: seq<Range>, startMs: int, step: int, q: int, n: int, c: int) {
    && Filling(|windows|, n, n - c, q)
    && forall i | 0 <= i < |windows| :: windows[i] == Span(startMs, i * q, Min((i + 1) * q, n) - 1, step)
  }

  lemma OneMoreDayWindow(windows: seq<Range>, startMs: int, step: int, q: int, n: int, c: int, win: Range)
    requires q >= 1 && 0 <= c < n && DayWindows(windows, startMs, step, q, n, c)
    requires win == Span(startMs, c, Min(c + q, n) - 1, step)
    ensures DayWindows(windows + [win], startMs, step, q, n, Min(c + q, n))
  {
    var k := |windows|;
    FillingNext(k, n, n - c, q);
    assert (k + 1) * q == c + q;
    assert n - c - Min(n - c, q) == n - Min(c + q, n);
  }

  /** `split_time_range` on a range of n whole slots, turned into inclusive windows as `build_adv` does. */
  method WindowRanges(startMs: int, endMs: int, step: int, chunkDays: int, ghost n: int)
    returns (windows: seq<Range>)
    requires step in STEPS && n > 0 && endMs == At(startMs, n, step)
    ensures Tiled(windows, startMs, step, n)
    ensures DayWindows(windows, startMs, step, Max(chunkDays, 1) * (DAY_MS / step), n, n)
  {
    StepDividesDay(step);
    var days := Max(chunkDays, 1);
    var span := days * DAY_MS;
    ghost var q := days * (DAY_MS / step);
    assert q >= 1 by {
      FactorBound(days, DAY_MS / step);
    }
    windows := [];
    var current := startMs;
    ghost var c, cuts := 0, [0];
    AtIsOrdered(startMs, 0, n, step);
    while current < endMs
      invariant 0 <= c <= n && current == At(startMs, c, step)
      invariant current < endMs <==> c < n
      invariant TiledBy(windows, cuts, startMs, step, c)
      invariant DayWindows(windows, startMs, step, q, n, c)
      decreases n - c
    {
      ghost var c' := Min(c + q, n);
      WindowEnds(startMs, c, n, days, step);
      var stop := Min(current + span, endMs);
      var inclusiveEnd := stop - step;
      if stop > current && inclusiveEnd >= current {
        OneMoreWindow(windows, cuts, startMs, step, c, c', Range(current, inclusiveEnd));
        OneMoreDayWindow(windows, startMs, step, q, n, c, Range(current, inclusiveEnd));
        windows := windows + [Range(current, inclusiveEnd)];
        cuts := cuts + [c'];
      }
      current, c := stop, c';
    }
  }

  /** One window: it ends at a slot boundary after its start, whole days on or at the end of the range. */
  lemma WindowEnds(startMs: int, c: int, n: int, days: int, step: int)
    requires step in STEPS && days >= 1 && c < n
    ensures var c' := Min(c + days * (DAY_MS / step), n);
      && c < c' <= n
      && Min(At(startMs, c, step) + days * DAY_MS, At(startMs, n, step)) == At(startMs, c', step)
      && At(startMs, c, step) <= At(startMs, c' - 1, step) == At(startMs, c', step) - step
      && (At(startMs, c', step) < At(startMs, n, step) <==> c' < n)
  {
    StepDividesDay(step);
    FactorBound(days, DAY_MS / step);
    var q := days * (DAY_MS / step);
    var c' := Min(c + q, n);
    AtOfProduct(startMs, c, days, DAY_MS / step, step);
    MinOfAt(startMs, c + q, n, step);
    AtIsOrdered(startMs, c' - 1, c, step);
    AtIsOrdered(startMs, c', n, step);
    NextSlot(startMs, c' - 1, step);
  }

  /** How many slots of a..b lie before slot c. */
  function Before(a: int, b: int, c: int): int {
    Max(0, Min(b + 1, c) - a)
  }

  /** The cut of a gap by one window continues where the windows before it left off. */
  lemma CutContinues(startMs: int, step: int, a: int, b: int, c: int, c': int)
    requires step > 0 && a <= b && c < c'
    ensures var gap := Range(At(startMs, a, step), At(startMs, b, step));
      var win := Range(At(startMs, c, step), At(startMs, c' - 1, step));
      var cut := Range(Max(gap.first, win.first), Min(gap.last, win.last));
      && (gap.last < win.first || gap.first > win.last <==> Before(a, b, c) == Before(a, b, c'))
      && (Before(a, b, c) != Before(a, b, c') ==>
            && cut.first <= cut.last
            && cut == Range(At(startMs, Max(a, c), step), At(startMs, Min(b, c' - 1), step))
            && Max(a, c) == a + Before(a, b, c)
            && Bars(cut, step) == Before(a, b, c') - Before(a, b, c))
  {
    AtIsOrdered(startMs, b, c, step);
    AtIsOrdered(startMs, c' - 1, a, step);
    MinOfAt(startMs, a, c, step);
    MinOfAt(startMs, b, c' - 1, step);
    if Max(a, c) <= Min(b, c' - 1) {
      BarsOfGrid(startMs, Max(a, c), Min(b, c' - 1), step);
      AtIsOrdered(startMs, Max(a, c), Min(b, c' - 1), step);
    }
  }

  // ---------- pieces ----------

  /** The range lies within one window. */
  ghost predicate InOne(windows: seq<Range>, r: Range) {
    exists w :: 0 <= w < |windows| && windows[w].first <= r.first <= r.last <= windows[w].last
  }

  /** Two ranges leave a slot out between them, or a window begins in between. */
  ghost predicate Parted(windows: seq<Range>, step: int, a: Range, b: Range) {
    a.last + step < b.first || exists w :: 0 <= w < |windows| && a.last < windows[w].first <= b.first
  }

  /** Nothing can be joined: every chunk lies in one window, and two of them are parted. */
  ghost predicate Chunks(windows: seq<Range>, step: int, chunks: seq<Range>) {
    && (forall j | 0 <= j < |chunks| :: InOne(windows, chunks[j]))
    && forall j, k | 0 <= j < k < |chunks| :: Parted(windows, step, chunks[j], chunks[k])
  }

  const PIECES: int := 63

  /** The pieces cut from a gap so far: chunks inside the gap that end before the next window. */
  ghost predicate PiecesSoFar(windows: seq<Range>, step: int, gap: Range, cut: seq<Range>, next: int) {
    forall x {:trigger Open(x, PIECES)} :: Open(x, PIECES) ==>
      && Chunks(windows, step, cut)
      && forall j | 0 <= j < |cut| :: gap.first <= cut[j].first && cut[j].last <= gap.last && cut[j].last < next
  }

  lemma PiecesLater(windows: seq<Range>, step: int, gap: Range, cut: seq<Range>, next: int, later: int)
    requires PiecesSoFar(windows, step, gap, cut, next) && next <= later
    ensures PiecesSoFar(windows, step, gap, cut, later)
  {
    assert Open(0, PIECES);
  }

  lemma PiecesNext(windows: seq<Range>, step: int, gap: Range, cut: seq<Range>, w: nat, later: int)
    requires w < |windows| && PiecesSoFar(windows, step, gap, cut, windows[w].first) && windows[w].last < later
    requires windows[w].first <= windows[w].last && gap.first <= windows[w].last && windows[w].first <= gap.last
    requires gap.first <= gap.last
    ensures PiecesSoFar(windows, step, gap,
              cut + [Range(Max(gap.first, windows[w].first), Min(gap.last, windows[w].last))], later)
  {
    assert Open(0, PIECES);
    var piece := Range(Max(gap.first, windows[w].first), Min(gap.last, windows[w].last));
    assert InOne(windows, piece);
    forall j | 0 <= j < |cut| ensures Parted(windows, step, cut[j], piece) {
      assert cut[j].last < windows[w].first <= piece.first;
    }
  }

  /** The chunks cut from the ranges so far: what comes behind them leaves a slot out. */
  ghost predicate ChunksSoFar(windows: seq<Range>, step: int, ranges: seq<Range>, i: nat, chunked: seq<Range>) {
    i <= |ranges| && forall x {:trigger Open(x, PIECES)} :: Open(x, PIECES) ==>
      && Chunks(windows, step, chunked)
      && forall j, k | 0 <= j < |chunked| && i <= k < |ranges| :: chunked[j].last + step < ranges[k].first
  }

  lemma ChunksNext(windows: seq<Range>, step: int, ranges: seq<Range>, i: nat, chunked: seq<Range>, cut: seq<Range>, next: int)
    requires i < |ranges| && Apart(ranges, step)
    requires ChunksSoFar(windows, step, ranges, i, chunked) && PiecesSoFar(windows, step, ranges[i], cut, next)
    ensures ChunksSoFar(windows, step, ranges, i + 1, chunked + cut)
  {
    assert Open(0, PIECES);
    var all := chunked + cut;
    forall j | 0 <= j < |all| ensures InOne(windows, all[j]) {
      assert j < |chunked| ==> all[j] == chunked[j];
      assert j >= |chunked| ==> all[j] == cut[j - |chunked|];
    }
    forall j, k | 0 <= j < k < |all| ensures Parted(windows, step, all[j], all[k]) {
      if j < |chunked| <= k {
        assert all[j] == chunked[j] && all[k] == cut[k - |chunked|];
      } else if k < |chunked| {
        assert all[j] == chunked[j] && all[k] == chunked[k];
      } else {
        assert all[j] == cut[j - |chunked|] && all[k] == cut[k - |chunked|];
      }
    }
    forall j, k | 0 <= j < |all| && i + 1 <= k < |ranges| ensures all[j].last + step < ranges[k].first {
      if j >= |chunked| {
        assert all[j] == cut[j - |chunked|] && all[j].last <= ranges[i].last;
      }
    }
  }

  /** The inner loop over the windows for one gap. */
  method CutGap(gap: Range, windows: seq<Range>, step: int, ghost cuts: seq<int>, ghost startMs: int, ghost n: int)
    returns (cut: seq<Range>)
    requires step > 0 && GridRange(gap, startMs, step, n) && TiledBy(windows, cuts, startMs, step, n)
    ensures RangeSlots(cut, step) == Slots(gap.first, Max(0, Bars(gap, step)), step)
    ensures PiecesSoFar(windows, step, gap, cut, At(startMs, n, step))
  {
    ghost var a, b :| 0 <= a <= b < n && gap == Span(startMs, a, b, step);
    BarsOfGrid(startMs, a, b, step);
    AtIsOrdered(startMs, a, b, step);
    AtIsOrdered(startMs, b, a, step);
    cut := [];
    for i := 0 to |windows|
      invariant CutSoFar(cut, gap, step, a, b, cuts[i])
      invariant PiecesSoFar(windows, step, gap, cut, At(startMs, cuts[i], step))
    {
      var win := windows[i];
      WindowAt(windows, cuts, startMs, step, n, i);
      WindowEdges(startMs, cuts[i], cuts[i + 1], step);
      CutAdds(cut, gap, win, startMs, step, a, b, cuts[i], cuts[i + 1]);
      if gap.last < win.first || gap.first > win.last {
        PiecesLater(windows, step, gap, cut, At(startMs, cuts[i], step), At(startMs, cuts[i + 1], step));
        continue;
      }
      var first, last := Max(gap.first, win.first), Min(gap.last, win.last);
      if last < first {
        continue;
      }
      PiecesNext(windows, step, gap, cut, i, At(startMs, cuts[i + 1], step));
      cut := cut + [Range(first, last)];
    }
    assert Open(0, CUTTING);
  }

  lemma WindowEdges(startMs: int, c: int, c': int, step: int)
    requires step > 0 && c < c'
    ensures At(startMs, c, step) <= At(startMs, c' - 1, step) < At(startMs, c', step)
  {
    AtIsOrdered(startMs, c, c' - 1, step);
    AtIsOrdered(startMs, c' - 1, c', step);
  }

  const CUTTING: int := 60

  /** The slots of the gap up to the cut at c are the slots cut so far. */
  ghost predicate CutSoFar(cut: seq<Range>, gap: Range, step: int, a: int, b: int, c: int) {
    step > 0 && a <= b && forall x {:trigger Open(x, CUTTING)} :: Open(x, CUTTING) ==>
      RangeSlots(cut, step) == Slots(gap.first, Before(a, b, c), step)
  }

  /** What one window adds to the slots cut so far. */
  lemma CutAdds(cut: seq<Range>, gap: Range, win: Range, startMs: int, step: int, a: int, b: int, c: int, c': int)
    requires step > 0 && a <= b && c < c'
    requires gap == Span(startMs, a, b, step) && win == Span(startMs, c, c' - 1, step)
    requires CutSoFar(cut, gap, step, a, b, c)
    ensures var piece := Range(Max(gap.first, win.first), Min(gap.last, win.last));
      if gap.last < win.first || gap.first > win.last
      then CutSoFar(cut, gap, step, a, b, c')
      else piece.first <= piece.last && CutSoFar(cut + [piece], gap, step, a, b, c')
  {
    assert Open(0, CUTTING);
    CutContinues(startMs, step, a, b, c, c');
    var done, more := Before(a, b, c), Before(a, b, c') - Before(a, b, c);
    if more > 0 {
      RangeSlotsOfSnoc(cut, Range(Max(gap.first, win.first), Min(gap.last, win.last)), step);
      AtOfSum(startMs, a, done, step);
      SlotsJoin(gap.first, done, more, step);
    }
  }

  lemma {:induction false} RangeSlotsOfConcat(a: seq<Range>, b: seq<Range>, step: int)
    requires step > 0
    ensures RangeSlots(a + b, step) == RangeSlots(a, step) + RangeSlots(b, step)
    decreases |b|
  {
    if b == [] {
      assert a + b == a;
    } else {
      RangeSlotsOfConcat(a, b[..|b| - 1], step);
      Associative(RangeSlots(a, step), RangeSlots(b[..|b| - 1], step),
        Slots(b[|b| - 1].first, Max(0, Bars(b[|b| - 1], step)), step));
      assert a + b == (a + b[..|b| - 1]) + [b[|b| - 1]] && b == b[..|b| - 1] + [b[|b| - 1]];
      RangeSlotsOfSnoc(a + b[..|b| - 1], b[|b| - 1], step);
      RangeSlotsOfSnoc(b[..|b| - 1], b[|b| - 1], step);
    }
  }

  /** The window-intersection loop of `build_adv`: cutting at window edges loses and repeats no slot. */
  method CutAtWindows(ranges: seq<Range>, windows: seq<Range>, step: int, ghost cuts: seq<int>, ghost startMs: int, ghost n: int)
    returns (chunked: seq<Range>)
    requires step > 0 && TiledBy(windows, cuts, startMs, step, n)
    requires forall i | 0 <= i < |ranges| :: GridRange(ranges[i], startMs, step, n)
    requires Apart(ranges, step)
    ensures RangeSlots(chunked, step) == RangeSlots(ranges, step)
    ensures Chunks(windows, step, chunked)
  {
    chunked := [];
    for i := 0 to |ranges|
      invariant RangeSlots(chunked, step) == RangeSlots(ranges[..i], step)
      invariant ChunksSoFar(windows, step, ranges, i, chunked)
    {
      var cut := CutGap(ranges[i], windows, step, cuts, startMs, n);
      RangeSlotsOfConcat(chunked, cut, step);
      assert ranges[..i + 1] == ranges[..i] + [ranges[i]];
      RangeSlotsOfSnoc(ranges[..i], ranges[i], step);
      ChunksNext(windows, step, ranges, i, chunked, cut, At(startMs, n, step));
      chunked := chunked + cut;
    }
    assert Open(0, PIECES);
    assert ranges[..|ranges|] == ranges;
  }

  // ---------- requests ----------

  ghost predicate Sized(tasks: seq<FetchTask>, limit: int) {
    forall i | 0 <= i < |tasks| :: 1 <= tasks[i].bars <= Max(1, limit)
  }

  lemma QuotientIsNat(a: int, step: int)
    requires step > 0 && a >= 0
    ensures a / step >= 0
  {
  }

  lemma TaskAdds(tasks: seq<FetchTask>, before: seq<int>, first: int, done: nat, chunk: nat, step: int)
    requires TaskSlots(tasks, step) == before + Slots(first, done, step)
    ensures TaskSlots(tasks + [FetchTask(At(first, done, step), chunk)], step) == before + Slots(first, done + chunk, step)
    ensures At(first, done, step) + chunk * step == At(first, done + chunk, step)
  {
    TaskSlotsOfSnoc(tasks, FetchTask(At(first, done, step), chunk), step);
    SlotsJoin(first, done, chunk, step);
    AtOfSum(first, done, chunk, step);
    Associative(before, Slots(first, done, step), Slots(At(first, done, step), chunk, step));
  }

  // ---------- how many requests ----------

  function Ceil(n: nat, size: int): int
    requires size > 0
  {
    (n + size - 1) / size
  }

  /** The quotient rounded up is the only k with k - 1 whole sizes below n and k whole sizes not. */
  lemma CeilIs(n: nat, size: int, k: int)
    requires size > 0
    ensures k == Ceil(n, size) <==> (k - 1) * size < n <= k * size
  {
    var q := Ceil(n, size);
    var r := (n + size - 1) % size;
    assert n + size - 1 == q * size + r;
    assert (q - 1) * size == q * size - size;
    assert (k - 1) * size == k * size - size;
    assert (k - q) * size == k * size - q * size;
    FactorBound(k - q, size);
  }

  lemma {:induction false} SizedHold(tasks: seq<FetchTask>, limit: int, step: int)
    requires Sized(tasks, limit)
    ensures |TaskSlots(tasks, step)| <= |tasks| * Max(1, limit)
  {
    if tasks != [] {
      SizedHold(tasks[..|tasks| - 1], limit, step);
      assert (|tasks| - 1) * Max(1, limit) == |tasks| * Max(1, limit) - Max(1, limit);
    }
  }

  lemma Smaller(a: int, b: int, size: int)
    requires size > 0
    ensures a * size < b * size ==> a < b
  {
    if a >= b {
      assert (a - b) * size >= 0;
    }
  }

  /** No requests of allowed size cover n slots with fewer than that. */
  lemma CeilIsFewest(tasks: seq<FetchTask>, limit: int, step: int)
    requires Sized(tasks, limit)
    ensures |tasks| >= Ceil(|TaskSlots(tasks, step)|, Max(1, limit))
  {
    var n, size := |TaskSlots(tasks, step)|, Max(1, limit);
    var k := Ceil(n, size);
    SizedHold(tasks, limit, step);
    CeilIs(n, size, k);
    Smaller(k - 1, |tasks|, size);
  }

  /** The requests for n bars from `first` on, in closed form: all full but perhaps the last. */
  function RangeTasks(first: int, n: nat, step: int, size: int): (tasks: seq<FetchTask>)
    requires size > 0
    ensures |tasks| == Ceil(n, size)
    ensures forall k | 0 <= k < |tasks| :: tasks[k] == FetchTask(At(first, k * size, step), Min(size, n - k * size))
  {
    CeilIs(n, size, Ceil(n, size));
    Smaller(-1, Ceil(n, size), size);
    seq(Ceil(n, size), k => FetchTask(At(first, k * size, step), Min(size, n - k * size)))
  }

  lemma RangeTasksNext(first: int, n: nat, step: int, size: int, k: nat, remaining: int)
    requires size > 0 && 0 < remaining <= n && Filling(k, n, remaining, size)
    ensures var all := RangeTasks(first, n, step, size);
      k < |all| && all[..k + 1] == all[..k] + [FetchTask(At(first, n - remaining, step), Min(remaining, size))]
  {
    var all := RangeTasks(first, n, step, size);
    CeilIs(n, size, |all|);
    Smaller(k, |all|, size);
    assert all[k] == FetchTask(At(first, k * size, step), Min(size, n - k * size));
  }

  const FORM: int := 64

  /** The tasks are those before and the first k of the closed form. */
  ghost predicate InForm(tasks: seq<FetchTask>, before: seq<FetchTask>, first: int, n: nat, step: int, size: int,
      k: nat, remaining: int)
  {
    size > 0 && Filling(k, n, remaining, size) &&
    forall x {:trigger Open(x, FORM)} :: Open(x, FORM) ==>
      k <= |RangeTasks(first, n, step, size)| && tasks == before + RangeTasks(first, n, step, size)[..k]
  }

  lemma FormStart(before: seq<FetchTask>, first: int, n: nat, step: int, size: int)
    requires size > 0
    ensures InForm(before, before, first, n, step, size, 0, n)
  {
    CeilIs(n, size, 0);
  }

  lemma FormNext(tasks: seq<FetchTask>, before: seq<FetchTask>, first: int, n: nat, step: int, size: int,
      k: nat, remaining: int)
    requires 0 < remaining <= n && InForm(tasks, before, first, n, step, size, k, remaining)
    ensures InForm(tasks + [FetchTask(At(first, n - remaining, step), Min(remaining, size))], before, first, n, step, size,
              k + 1, remaining - Min(remaining, size))
  {
    assert Open(0, FORM);
    RangeTasksNext(first, n, step, size, k, remaining);
    Associative(before, RangeTasks(first, n, step, size)[..k], [FetchTask(At(first, n - remaining, step), Min(remaining, size))]);
    FillingNext(k, n, remaining, size);
  }

  lemma FormEnd(tasks: seq<FetchTask>, before: seq<FetchTask>, first: int, n: nat, step: int, size: int, k: nat)
    requires InForm(tasks, before, first, n, step, size, k, 0)
    ensures tasks == before + RangeTasks(first, n, step, size)
  {
    assert Open(0, FORM);
    CeilIs(n, size, k);
    var all := RangeTasks(first, n, step, size);
    assert all[..|all|] == all;
  }

  /** The inner loop over one range, which appends to the tasks so far. */
  method SplitRange(before: seq<FetchTask>, first: int, barsTotal: nat, step: int, maxBars: int) returns (tasks: seq<FetchTask>)
    requires step > 0 && maxBars >= 1
    ensures TaskSlots(tasks, step) == TaskSlots(before, step) + Slots(first, barsTotal, step)
    ensures Sized(before, maxBars) ==> Sized(tasks, maxBars)
    ensures tasks == before + RangeTasks(first, barsTotal, step, maxBars)
  {
    tasks := before;
    var remaining: int := barsTotal;
    var cursor := first;
    ghost var k: nat := 0;
    FormStart(before, first, barsTotal, step, maxBars);
    assert TaskSlots(before, step) + [] == TaskSlots(before, step);
    while remaining > 0
      invariant 0 <= remaining <= barsTotal
      invariant cursor == At(first, barsTotal - remaining, step)
      invariant TaskSlots(tasks, step) == TaskSlots(before, step) + Slots(first, barsTotal - remaining, step)
      invariant Sized(before, maxBars) ==> Sized(tasks, maxBars)
      invariant InForm(tasks, before, first, barsTotal, step, maxBars, k, remaining)
    {
      var chunk := Min(remaining, maxBars);
      TaskAdds(tasks, TaskSlots(before, step), first, barsTotal - remaining, chunk, step);
      FormNext(tasks, before, first, barsTotal, step, maxBars, k, remaining);
      tasks := tasks + [FetchTask(cursor, chunk)];
      cursor := cursor + chunk * step;
      remaining := remaining - chunk;
      k := k + 1;
    }
    FormEnd(tasks, before, first, barsTotal, step, maxBars, k);
  }

  /** k requests so far: all full while bars remain, and the last one perhaps not when none do. */
  ghost predicate Filling(k: nat, total: int, remaining: int, size: int) {
    if remaining > 0 then k * size == total - remaining else (k - 1) * size < total <= k * size
  }

  lemma FillingNext(k: nat, total: int, remaining: int, size: int)
    requires 0 < remaining <= total && size >= 1 && Filling(k, total, remaining, size)
    ensures Filling(k + 1, total, remaining - Min(remaining, size), size)
  {
    assert (k + 1) * size == k * size + size;
  }

  /** The requests for a list of ranges, range by range; an empty range takes none. */
  function TasksOf(ranges: seq<Range>, step: int, size: int): seq<FetchTask>
    requires step > 0 && size > 0
  {
    if ranges == [] then [] else
      var r := ranges[|ranges| - 1];
      TasksOf(ranges[..|ranges| - 1], step, size) + RangeTasks(r.first, Max(0, Bars(r, step)), step, size)
  }

  lemma TasksOfNext(ranges: seq<Range>, i: nat, step: int, size: int)
    requires step > 0 && size > 0 && i < |ranges|
    ensures TasksOf(ranges[..i + 1], step, size) ==
      TasksOf(ranges[..i], step, size) + RangeTasks(ranges[i].first, Max(0, Bars(ranges[i], step)), step, size)
    ensures ranges[i].first > ranges[i].last ==> TasksOf(ranges[..i + 1], step, size) == TasksOf(ranges[..i], step, size)
    ensures ranges[i].first <= ranges[i].last ==> Max(0, Bars(ranges[i], step)) == (ranges[i].last - ranges[i].first) / step + 1
  {
    assert ranges[..i + 1][..i] == ranges[..i];
    CeilIs(0, size, 0);
    if ranges[i].first <= ranges[i].last {
      QuotientIsNat(ranges[i].last - ranges[i].first, step);
    }
  }

  const SPLITTING: int := 61

  ghost predicate SplitSoFar(tasks: seq<FetchTask>, ranges: seq<Range>, step: int) {
    step > 0 && forall x {:trigger Open(x, SPLITTING)} :: Open(x, SPLITTING) ==>
      TaskSlots(tasks, step) == RangeSlots(ranges, step)
  }

  lemma SplitNext(tasks: seq<FetchTask>, ranges: seq<Range>, i: nat, step: int) returns (bars: nat)
    requires i < |ranges| && SplitSoFar(tasks, ranges[..i], step)
    ensures ranges[i].first <= ranges[i].last ==> bars == (ranges[i].last - ranges[i].first) / step + 1
    ensures ranges[i].first > ranges[i].last ==> SplitSoFar(tasks, ranges[..i + 1], step)
    ensures ranges[i].first <= ranges[i].last ==> forall more ::
      TaskSlots(more, step) == TaskSlots(tasks, step) + Slots(ranges[i].first, bars, step) ==>
      SplitSoFar(more, ranges[..i + 1], step)
  {
    assert Open(0, SPLITTING);
    assert ranges[..i + 1] == ranges[..i] + [ranges[i]];
    RangeSlotsOfSnoc(ranges[..i], ranges[i], step);
    bars := 0;
    if ranges[i].first <= ranges[i].last {
      QuotientIsNat(ranges[i].last - ranges[i].first, step);
      bars := (ranges[i].last - ranges[i].first) / step + 1;
    }
  }

  /** `_split_ranges_to_tasks`: the same slots, in requests of one to `max(1, limit)` bars. */
  method SplitRangesToTasks(ranges: seq<Range>, step: int, limit: int) returns (tasks: seq<FetchTask>)
    requires step > 0
    ensures TaskSlots(tasks, step) == RangeSlots(ranges, step)
    ensures Sized(tasks, limit)
    ensures tasks == TasksOf(ranges, step, Max(1, limit))
  {
    tasks := [];
    var maxBars := Max(1, limit);
    for i := 0 to |ranges|
      invariant SplitSoFar(tasks, ranges[..i], step)
      invariant Sized(tasks, maxBars)
      invariant tasks == TasksOf(ranges[..i], step, maxBars)
    {
      var Range(first, last) := ranges[i];
      TasksOfNext(ranges, i, step, maxBars);
      ghost var bars := SplitNext(tasks, ranges, i, step);
      if last < first {
        continue;
      }
      tasks := SplitRange(tasks, first, (last - first) / step + 1, step, maxBars);
    }
    assert Open(0, SPLITTING);
    assert ranges[..|ranges|] == ranges;
  }

  // ---------- the plan for one symbol ----------

  /** `build_adv` for one symbol on an aligned range: gaps, cut at windows, split into requests. */
  method Plan(timestamps: seq<int>, startMs: int, endMs: int, step: int, chunkDays: int, limit: int, ghost n: int)
    returns (tasks: seq<FetchTask>, ghost windows: seq<Range>, ghost chunks: seq<Range>)
    requires step in STEPS && n > 0 && endMs == At(startMs, n, step)
    ensures TaskSlots(tasks, step) == Missing(timestamps, startMs, step, n)
    ensures Sized(tasks, limit)
    ensures DayWindows(windows, startMs, step, Max(chunkDays, 1) * (DAY_MS / step), n, n)
    ensures RangeSlots(chunks, step) == Missing(timestamps, startMs, step, n) && Chunks(windows, step, chunks)
    ensures tasks == TasksOf(chunks, step, Max(1, limit))
  {
    StepDividesDay(step);
    var windowRanges := WindowRanges(startMs, endMs, step, chunkDays, n);
    ghost var cuts :| TiledBy(windowRanges, cuts, startMs, step, n);
    var ranges := IterMissingRanges(timestamps, startMs, endMs, step, n);
    var chunked := CutAtWindows(ranges, windowRanges, step, cuts, startMs, n);
    tasks := SplitRangesToTasks(chunked, step, limit);
    windows, chunks := windowRanges, chunked;
  }

  function CountOf(s: seq<int>, x: int): nat {
    if s == [] then 0 else (if s[0] == x then 1 else 0) + CountOf(s[1..], x)
  }

  lemma {:induction false} CountOfIncreasing(s: seq<int>, x: int)
    requires Increasing(s)
    ensures CountOf(s, x) == if x in s then 1 else 0
  {
    if s != [] {
      CountOfIncreasing(s[1..], x);
      assert s == [s[0]] + s[1..];
      assert s[0] !in s[1..];
    }
  }

  /** With all cached timestamps of the range on the grid, the requests cover every slot that is not cached
      exactly once and no cached slot at all; nothing outside the range is requested. */
  lemma ExactTiling(timestamps: seq<int>, startMs: int, step: int, n: nat, tasks: seq<FetchTask>, slot: int)
    requires step > 0 && TaskSlots(tasks, step) == Missing(timestamps, startMs, step, n)
    requires forall u | u in timestamps && startMs <= u < At(startMs, n, step) :: OnGrid(startMs, step, u)
    ensures CountOf(TaskSlots(tasks, step), slot) ==
      if startMs <= slot < At(startMs, n, step) && OnGrid(startMs, step, slot) && slot !in timestamps then 1 else 0
  {
    MissingAscends(timestamps, startMs, step, n);
    CountOfIncreasing(TaskSlots(tasks, step), slot);
    if slot in Missing(timestamps, startMs, step, n) {
      PlannedIsInRange(timestamps, startMs, step, n, slot);
    }
    if startMs <= slot < At(startMs, n, step) && OnGrid(startMs, step, slot) {
      var i :| slot == At(startMs, i, step);
      AtIsOrdered(startMs, i, 0, step);
      AtIsOrdered(startMs, i, n, step);
      PlannedIff(timestamps, startMs, step, n, i);
    }
  }

  /** `end_exclusive`: a request ends where its slots do. */
  function EndExclusive(t: FetchTask, step: int): int {
    t.startMs + Max(t.bars, 0) * step
  }

  /** A slot belongs to a request exactly if it lies on its grid between its start and its end. */
  lemma TaskCoversItsRange(t: FetchTask, step: int, slot: int)
    requires step > 0
    ensures slot in TaskSlots([t], step) <==>
      t.startMs <= slot < EndExclusive(t, step) && OnGrid(t.startMs, step, slot)
  {
    var s := Slots(t.startMs, Max(0, t.bars), step);
    assert [t][..0] == [];
    assert TaskSlots([t], step) == [] + s;
    assert EndExclusive(t, step) == At(t.startMs, Max(0, t.bars), step);
    if slot in s {
      var i :| 0 <= i < |s| && s[i] == slot;
      AtIsOrdered(t.startMs, i, |s|, step);
      AtIsOrdered(t.startMs, 0, i, step);
    }
    if t.startMs <= slot < EndExclusive(t, step) && OnGrid(t.startMs, step, slot) {
      var i :| slot == At(t.startMs, i, step);
      AtIsOrdered(t.startMs, i, 0, step);
      AtIsOrdered(t.startMs, i, |s|, step);
      assert s[i] == slot;
    }
  }
}
