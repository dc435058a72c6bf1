/** Clock synchronisation: samples of the server's clock, their filtered median, and a damped, clipped
    update of the skew, with the error against a constant true offset. */
module ClockSync {
  import opened Reals
  import opened Sorting

  /** One request, in local time: sent, stamped by the server in between, and received. */
  datatype Exchange = Exchange(sent: real, stamped: real, received: real) {
    predicate Causal() {
      sent <= stamped <= received
    }

    function Rtt(): real {
      received - sent
    }

    /** The sampled offset, when the server's clock is ahead by `ahead` and the local clock is read as the
        reply arrives. */
    function Offset(ahead: real): real {
      stamped + ahead + Rtt() / 2.0 - received
    }
  }

  datatype Config = Config(emaAlpha: real, maxStepMs: real)

  // ---------- sorting and the median ----------

  /** `sorted`. */
  function InOrder(s: seq<real>): (t: seq<real>)
    ensures |t| == |s| && (forall x :: x in t <==> x in s)
    ensures forall i, j | 0 <= i <= j < |t| :: t[i] <= t[j]
  {
    SortShape(s, Itself());
    assert forall x :: x in Sort(s, Itself()) <==> x in multiset(Sort(s, Itself()));
    Sort(s, Itself())
  }

  function Itself(): real -> real {
    (x: real) => x
  }

  function Median(s: seq<real>): real
    requires s != []
  {
    var t := InOrder(s);
    if |s| % 2 == 1 then t[|s| / 2] else (t[|s| / 2 - 1] + t[|s| / 2]) / 2.0
  }

  lemma MedianWithin(s: seq<real>, lo: real, hi: real)
    requires s != [] && forall x | x in s :: lo <= x <= hi
    ensures lo <= Median(s) <= hi
  {
    var t := InOrder(s);
    forall i | 0 <= i < |t| ensures lo <= t[i] <= hi {
      assert t[i] in t;
    }
  }

  // ---------- what the median and the quantile mean ----------

  function AtMost(x: real): real -> bool {
    (y: real) => y <= x
  }

  function AtLeast(x: real): real -> bool {
    (y: real) => y >= x
  }

  /** The least sample such that at least the given share of all samples is at or below it. */
  ghost predicate LeastCovering(s: seq<real>, x: real, share: nat, of: nat) {
    && x in s
    && of * Count(s, AtMost(x)) >= share * |s|
    && forall y | y in s && y < x :: of * Count(s, AtMost(y)) < share * |s|
  }

  /** The greatest sample such that at least half of all samples are at or above it. */
  ghost predicate UpperMiddle(s: seq<real>, x: real) {
    && x in s
    && 2 * Count(s, AtLeast(x)) >= |s|
    && forall y | y in s && y > x :: 2 * Count(s, AtLeast(y)) < |s|
  }

  /** How many samples are at or below the one at place k, and at or below any lesser one. */
  lemma RankBelow(s: seq<real>, k: nat)
    requires k < |s|
    ensures Count(s, AtMost(InOrder(s)[k])) >= k + 1
    ensures forall y | y < InOrder(s)[k] :: Count(s, AtMost(y)) <= k
  {
    var t := InOrder(s);
    CountOfInOrder(s, AtMost(t[k]));
    CountOfPrefix(t, k + 1, AtMost(t[k]));
    forall y | y < t[k] ensures Count(s, AtMost(y)) <= k {
      CountOfInOrder(s, AtMost(y));
      CountOfPrefix(t, k, AtMost(y));
    }
  }

  lemma RankAbove(s: seq<real>, k: nat)
    requires k < |s|
    ensures Count(s, AtLeast(InOrder(s)[k])) >= |s| - k
    ensures forall y | y > InOrder(s)[k] :: Count(s, AtLeast(y)) <= |s| - k - 1
  {
    var t := InOrder(s);
    CountOfInOrder(s, AtLeast(t[k]));
    CountOfPrefix(t, k, AtLeast(t[k]));
    forall y | y > t[k] ensures Count(s, AtLeast(y)) <= |s| - k - 1 {
      CountOfInOrder(s, AtLeast(y));
      CountOfPrefix(t, k + 1, AtLeast(y));
    }
  }

  lemma CountOfInOrder(s: seq<real>, which: real -> bool)
    ensures Count(InOrder(s), which) == Count(s, which)
  {
    CountOfSort(s, Itself(), which);
  }

  lemma CoveringAt(s: seq<real>, k: nat, share: nat, of: nat)
    requires k < |s| && of * (k + 1) >= share * |s| && of * k < share * |s|
    ensures LeastCovering(s, InOrder(s)[k], share, of)
  {
    var x := InOrder(s)[k];
    RankBelow(s, k);
    assert x in InOrder(s);
    Times(of, k + 1, Count(s, AtMost(x)));
    forall y | y in s && y < x ensures of * Count(s, AtMost(y)) < share * |s| {
      Times(of, Count(s, AtMost(y)), k);
    }
  }

  lemma Times(of: nat, a: nat, b: nat)
    requires a <= b
    ensures of * a <= of * b
  {
  }

  /** The median is the mean of the least sample with half of all at or below it and the greatest with half at
      or above it; with an odd number of samples both are the same. */
  lemma MedianIsMiddle(s: seq<real>) returns (low: real, high: real)
    requires s != []
    ensures LeastCovering(s, low, 1, 2) && UpperMiddle(s, high)
    ensures Median(s) == (low + high) / 2.0 && low <= high
    ensures |s| % 2 == 1 ==> Median(s) == low == high
  {
    var t, n := InOrder(s), |s|;
    var k, m := (n - 1) / 2, n / 2;
    low, high := t[k], t[m];
    CoveringAt(s, k, 1, 2);
    RankAbove(s, m);
    assert high in t;
  }

  /** At least half of the samples are at or below the median, and at least half at or above it. */
  lemma MedianSplits(s: seq<real>)
    requires s != []
    ensures 2 * Count(s, AtMost(Median(s))) >= |s| && 2 * Count(s, AtLeast(Median(s))) >= |s|
  {
    var low, high := MedianIsMiddle(s);
    CountGrows(s, AtMost(low), AtMost(Median(s)));
    CountGrows(s, AtLeast(high), AtLeast(Median(s)));
  }

  lemma {:induction false} CountGrows(s: seq<real>, which: real -> bool, wider: real -> bool)
    requires forall x :: which(x) ==> wider(x)
    ensures Count(s, which) <= Count(s, wider)
  {
    if s != [] {
      CountGrows(s[1..], which, wider);
    }
  }

  // ---------- the filter ----------

  /** The index `max(0, ceil(0.9 n) - 1)`. */
  function Index90(n: nat): (i: nat)
    requires n > 0
    ensures i < n
  {
    (9 * n + 9) / 10 - 1
  }

  function P90(rtts: seq<real>): real
    requires rtts != []
  {
    InOrder(rtts)[Index90(|rtts|)]
  }

  lemma P90IsSampled(rtts: seq<real>)
    requires rtts != []
    ensures P90(rtts) in rtts
  {
    assert InOrder(rtts)[Index90(|rtts|)] in InOrder(rtts);
  }

  /** It is the least round trip that nine tenths of the samples do not exceed. */
  lemma P90Covers(rtts: seq<real>)
    requires rtts != []
    ensures LeastCovering(rtts, P90(rtts), 9, 10)
  {
    CoveringAt(rtts, Index90(|rtts|), 9, 10);
  }

  /** The samples whose round trip is no longer than the bound, in order. */
  function Paired(offsets: seq<real>, rtts: seq<real>, bound: real): seq<(real, real)> {
    if offsets == [] || rtts == [] then []
    else (if rtts[0] <= bound then [(offsets[0], rtts[0])] else []) + Paired(offsets[1..], rtts[1..], bound)
  }

  function Firsts(ps: seq<(real, real)>): (s: seq<real>)
    ensures |s| == |ps|
  {
    seq(|ps|, i requires 0 <= i < |ps| => ps[i].0)
  }

  function Seconds(ps: seq<(real, real)>): (s: seq<real>)
    ensures |s| == |ps|
  {
    seq(|ps|, i requires 0 <= i < |ps| => ps[i].1)
  }

  /** The samples the median is taken over. */
  function Retained(offsets: seq<real>, rtts: seq<real>): (seq<real>, seq<real>) {
    if |rtts| > 1 && Paired(offsets, rtts, P90(rtts)) != []
    then (Firsts(Paired(offsets, rtts, P90(rtts))), Seconds(Paired(offsets, rtts, P90(rtts))))
    else (offsets, rtts)
  }

  lemma {:induction false} PairedMembers(offsets: seq<real>, rtts: seq<real>, bound: real)
    requires |offsets| == |rtts|
    ensures forall p | p in Paired(offsets, rtts, bound) ::
      p.1 <= bound && exists i :: 0 <= i < |rtts| && p == (offsets[i], rtts[i])
    ensures (exists i :: 0 <= i < |rtts| && rtts[i] <= bound) ==> Paired(offsets, rtts, bound) != []
  {
    if rtts != [] {
      PairedMembers(offsets[1..], rtts[1..], bound);
      forall p | p in Paired(offsets, rtts, bound)
        ensures p.1 <= bound && exists i :: 0 <= i < |rtts| && p == (offsets[i], rtts[i])
      {
        if p in Paired(offsets[1..], rtts[1..], bound) {
          var i :| 0 <= i < |rtts[1..]| && p == (offsets[1..][i], rtts[1..][i]);
          assert p == (offsets[i + 1], rtts[i + 1]);
        } else {
          assert p == (offsets[0], rtts[0]);
        }
      }
      if i :| 0 <= i < |rtts| && rtts[i] <= bound {
        if i > 0 {
          assert rtts[1..][i - 1] <= bound;
        }
      }
    }
  }

  function Zip(offsets: seq<real>, rtts: seq<real>): (ps: seq<(real, real)>)
    requires |offsets| == |rtts|
    ensures |ps| == |rtts|
  {
    seq(|rtts|, i requires 0 <= i < |rtts| => (offsets[i], rtts[i]))
  }

  lemma {:induction false} PairedCounts(offsets: seq<real>, rtts: seq<real>, bound: real, which: ((real, real)) -> bool)
    requires |offsets| == |rtts|
    ensures Count(Paired(offsets, rtts, bound), which) ==
      Count(Zip(offsets, rtts), (p: (real, real)) => which(p) && p.1 <= bound)
  {
    var both := (p: (real, real)) => which(p) && p.1 <= bound;
    if rtts != [] {
      PairedCounts(offsets[1..], rtts[1..], bound, which);
      assert Zip(offsets, rtts)[1..] == Zip(offsets[1..], rtts[1..]);
      var head := if rtts[0] <= bound then [(offsets[0], rtts[0])] else [];
      CountOfConcat(head, Paired(offsets[1..], rtts[1..], bound), which);
      assert head != [] ==> head[1..] == [];
    }
  }

  /** Of more than one sample, exactly those are kept whose round trip is at most the 90th percentile, as often
      as they were sampled; a single one is kept. */
  lemma KeptExactly(offsets: seq<real>, rtts: seq<real>, which: ((real, real)) -> bool)
    requires |offsets| == |rtts| > 0
    ensures var (os, rs) := Retained(offsets, rtts);
      && |os| == |rs| > 0
      && Count(Zip(os, rs), which) ==
           if |rtts| == 1 then Count(Zip(offsets, rtts), which)
           else Count(Zip(offsets, rtts), (p: (real, real)) => which(p) && p.1 <= P90(rtts))
  {
    if |rtts| > 1 {
      var ps := Paired(offsets, rtts, P90(rtts));
      P90IsSampled(rtts);
      var i :| 0 <= i < |rtts| && rtts[i] == P90(rtts);
      PairedMembers(offsets, rtts, P90(rtts));
      PairedCounts(offsets, rtts, P90(rtts), which);
      assert Zip(Firsts(ps), Seconds(ps)) == ps;
    }
  }

  // ---------- the update ----------

  function Clamped(alpha: real): (a: real)
    ensures 0.0 <= a <= 1.0
  {
    if alpha < 0.0 then 0.0 else if alpha > 1.0 then 1.0 else alpha
  }

  function Blend(alpha: real, skew: real, median: real): real {
    Product(1.0 - alpha, skew) + Product(alpha, median)
  }

  /** A step cut to the largest one allowed, if one is set. */
  function Cut(skew: real, target: real, maxStep: real): real {
    var step := target - skew;
    if maxStep > 0.0 && Abs(step) > maxStep
    then skew + (if step < 0.0 then -maxStep else maxStep)
    else target
  }

  function Moved(skew: real, median: real, cfg: Config): real {
    Cut(skew, Blend(Clamped(cfg.emaAlpha), skew, median), cfg.maxStepMs)
  }

  /** The new skew from a batch of samples; an empty batch changes nothing. */
  function Synced(skew: real, offsets: seq<real>, rtts: seq<real>, cfg: Config): real {
    if offsets == [] then skew else
      var kept := Retained(offsets, rtts).0;
      if kept == [] then skew else Moved(skew, Median(kept), cfg)
  }

  // ---------- error bounds ----------

  lemma SampleError(e: Exchange, ahead: real)
    requires e.Causal()
    ensures Abs(e.Offset(ahead) - ahead) <= e.Rtt() / 2.0
  {
  }

  function Offsets(es: seq<Exchange>, ahead: real): (s: seq<real>)
    ensures |s| == |es|
  {
    seq(|es|, i requires 0 <= i < |es| => es[i].Offset(ahead))
  }

  function Rtts(es: seq<Exchange>): (s: seq<real>)
    ensures |s| == |es|
  {
    seq(|es|, i requires 0 <= i < |es| => es[i].Rtt())
  }

  function Replies(n: nat, exchange: nat -> Exchange): (es: seq<Exchange>)
    ensures |es| == n && forall i | 0 <= i < n :: es[i] == exchange(i)
  {
    seq(n, i requires 0 <= i < n => exchange(i))
  }

  /** The longest round trip that survives the filter; a single sample is not filtered. */
  function Bound(es: seq<Exchange>): real
    requires es != []
  {
    if |es| > 1 then P90(Rtts(es)) else es[0].Rtt()
  }

  /** The median of the retained samples is within half the 90th-percentile round trip of the true offset. */
  lemma MedianError(es: seq<Exchange>, ahead: real)
    requires es != [] && forall e | e in es :: e.Causal()
    ensures var kept := Retained(Offsets(es, ahead), Rtts(es)).0;
      kept != [] && Abs(Median(kept) - ahead) <= Bound(es) / 2.0
  {
    var offsets, rtts := Offsets(es, ahead), Rtts(es);
    var kept := Retained(offsets, rtts).0;
    if |es| > 1 {
      P90IsSampled(rtts);
      PairedMembers(offsets, rtts, P90(rtts));
      var i :| 0 <= i < |rtts| && rtts[i] == P90(rtts);
      var pairs := Paired(offsets, rtts, P90(rtts));
      assert kept == Firsts(pairs);
      forall x | x in kept ensures ahead - Bound(es) / 2.0 <= x <= ahead + Bound(es) / 2.0 {
        var k :| 0 <= k < |kept| && kept[k] == x;
        assert pairs[k] in pairs;
        var j :| 0 <= j < |rtts| && pairs[k] == (offsets[j], rtts[j]);
        assert es[j] in es;
        SampleError(es[j], ahead);
      }
    } else {
      assert es[0] in es;
      SampleError(es[0], ahead);
    }
    MedianWithin(kept, ahead - Bound(es) / 2.0, ahead + Bound(es) / 2.0);
  }

  lemma Scaled(a: real, x: real, y: real)
    requires a >= 0.0 && x <= y
    ensures a * x <= a * y
  {
  }

  lemma BetweenScaled(alpha: real, x: real)
    requires 0.0 <= alpha <= 1.0
    ensures x >= 0.0 ==> 0.0 <= alpha * x <= x
    ensures x <= 0.0 ==> x <= alpha * x <= 0.0
  {
    if x >= 0.0 {
      Scaled(x, alpha, 1.0);
      Scaled(x, 0.0, alpha);
    } else {
      Scaled(-x, alpha, 1.0);
      Scaled(-x, 0.0, alpha);
    }
  }

  lemma ScaledAbs(a: real, x: real, bound: real)
    requires a >= 0.0 && Abs(x) <= bound
    ensures Abs(Product(a, x)) <= Product(a, bound)
  {
    Scaled(a, x, bound);
    Scaled(a, -x, bound);
    assert a * (-x) == -(a * x);
  }

  lemma BlendFrom(alpha: real, skew: real, median: real, origin: real)
    ensures Blend(alpha, skew, median) - origin == Product(1.0 - alpha, skew - origin) + Product(alpha, median - origin)
  {
  }

  lemma BlendStep(alpha: real, skew: real, median: real)
    ensures Blend(alpha, skew, median) - skew == Product(alpha, median - skew)
  {
  }

  lemma SumWithin(sum: real, x: real, y: real, p: real, q: real)
    requires sum == x + y && Abs(x) <= p && Abs(y) <= q
    ensures Abs(sum) <= p + q
  {
  }

  /** A damped step leaves at most the weighted mean of the old error and the median's. */
  lemma DampedError(skew: real, median: real, alpha: real, ahead: real, bound: real)
    requires 0.0 <= alpha <= 1.0 && Abs(median - ahead) <= bound
    ensures Abs(Blend(alpha, skew, median) - ahead) <= Blend(alpha, Abs(skew - ahead), bound)
  {
    BlendFrom(alpha, skew, median, ahead);
    ScaledAbs(1.0 - alpha, skew - ahead, Abs(skew - ahead));
    ScaledAbs(alpha, median - ahead, bound);
    SumWithin(Blend(alpha, skew, median) - ahead, Product(1.0 - alpha, skew - ahead), Product(alpha, median - ahead),
      Product(1.0 - alpha, Abs(skew - ahead)), Product(alpha, bound));
  }

  lemma PartOfTheWay(alpha: real, way: real, from: real, to: real)
    requires 0.0 <= alpha <= 1.0 && to - from == Product(alpha, way)
    ensures from <= to <= from + way || from + way <= to <= from
  {
    BetweenScaled(alpha, way);
  }

  lemma BlendIsBetween(alpha: real, skew: real, median: real)
    requires 0.0 <= alpha <= 1.0
    ensures skew <= Blend(alpha, skew, median) <= median || median <= Blend(alpha, skew, median) <= skew
  {
    BlendStep(alpha, skew, median);
    PartOfTheWay(alpha, median - skew, skew, Blend(alpha, skew, median));
  }

  /** A step is never longer than the limit when one is set, an error never exceeds the larger of the old one
      and the median's, and a cut step takes the whole limit off the error or ends within the median's own. */
  lemma CutError(skew: real, target: real, median: real, maxStep: real, ahead: real, bound: real)
    requires skew <= target <= median || median <= target <= skew
    requires Abs(median - ahead) <= bound
    ensures maxStep > 0.0 ==> Abs(Cut(skew, target, maxStep) - skew) <= maxStep
    ensures Abs(Cut(skew, target, maxStep) - ahead) <= Max(Abs(skew - ahead), bound)
    ensures Cut(skew, target, maxStep) != target ==>
      Abs(Cut(skew, target, maxStep) - ahead) <= Max(Abs(skew - ahead) - maxStep, bound)
  {
  }

  /** One update as a whole; an uncut one leaves the weighted mean of the two errors. */
  lemma SyncError(skew: real, median: real, cfg: Config, ahead: real, bound: real)
    requires Abs(median - ahead) <= bound
    ensures var moved, alpha := Moved(skew, median, cfg), Clamped(cfg.emaAlpha);
      && (cfg.maxStepMs > 0.0 ==> Abs(moved - skew) <= cfg.maxStepMs)
      && Abs(moved - ahead) <= Max(Abs(skew - ahead), bound)
      && (Abs(moved - ahead) <= Blend(alpha, Abs(skew - ahead), bound) ||
          Abs(moved - ahead) <= Max(Abs(skew - ahead) - cfg.maxStepMs, bound))
  {
    var alpha := Clamped(cfg.emaAlpha);
    BlendIsBetween(alpha, skew, median);
    DampedError(skew, median, alpha, ahead, bound);
    CutError(skew, Blend(alpha, skew, median), median, cfg.maxStepMs, ahead, bound);
  }

  /** The update in one sentence: the skew moves from its old value by the clamped share of the way to the median,
      but no further than the largest step when one is set. */
  lemma MovedExactly(skew: real, median: real, cfg: Config)
    ensures var share := Max(0.0, Min(1.0, cfg.emaAlpha));
      var way := share * (median - skew);
      Moved(skew, median, cfg) - skew ==
      if cfg.maxStepMs <= 0.0 then way else Max(-cfg.maxStepMs, Min(cfg.maxStepMs, way))
  {
    var share := Max(0.0, Min(1.0, cfg.emaAlpha));
    assert Clamped(cfg.emaAlpha) == share;
    BlendStep(share, skew, median);
    assert Product(share, median - skew) == share * (median - skew);
    CutSays(skew, Blend(share, skew, median), cfg.maxStepMs);
  }

  lemma CutSays(skew: real, target: real, maxStep: real)
    ensures Cut(skew, target, maxStep) - skew ==
      if maxStep <= 0.0 then target - skew else Max(-maxStep, Min(maxStep, target - skew))
  {
  }

  datatype Sync = Sync(exchanges: seq<Exchange>, cfg: Config)

  ghost predicate Proper(s: Sync) {
    s.exchanges != [] && forall e | e in s.exchanges :: e.Causal()
  }

  lemma BatchError(skew: real, s: Sync, ahead: real)
    requires Proper(s)
    ensures var after := Synced(skew, Offsets(s.exchanges, ahead), Rtts(s.exchanges), s.cfg);
      Abs(after - ahead) <= Max(Abs(skew - ahead), Bound(s.exchanges) / 2.0)
  {
    MedianError(s.exchanges, ahead);
    var median := Median(Retained(Offsets(s.exchanges, ahead), Rtts(s.exchanges)).0);
    SyncError(skew, median, s.cfg, ahead, Bound(s.exchanges) / 2.0);
  }

  function Run(skew: real, syncs: seq<Sync>, ahead: real): real {
    if syncs == [] then skew else
      var before, s := Run(skew, syncs[..|syncs| - 1], ahead), syncs[|syncs| - 1];
      Synced(before, Offsets(s.exchanges, ahead), Rtts(s.exchanges), s.cfg)
  }

  /** Over any run of syncs against a constant offset, the error stays within the larger of the initial one
      and half the worst filtered round trip. */
  lemma {:induction false} RunError(skew: real, syncs: seq<Sync>, ahead: real, worst: real)
    requires forall i | 0 <= i < |syncs| :: Proper(syncs[i]) && Bound(syncs[i].exchanges) / 2.0 <= worst
    ensures Abs(Run(skew, syncs, ahead) - ahead) <= Max(Abs(skew - ahead), worst)
  {
    if syncs != [] {
      var s := syncs[|syncs| - 1];
      RunError(skew, syncs[..|syncs| - 1], ahead, worst);
      assert Proper(s) && Bound(s.exchanges) / 2.0 <= worst;
      BatchError(Run(skew, syncs[..|syncs| - 1], ahead), s, ahead);
    }
  }

  // ---------- the module's globals ----------

  class Clock {
    var clockSkewMs: real
    var lastSyncAt: real

    constructor ()
      ensures clockSkewMs == 0.0 && lastSyncAt == 0.0
    {
      clockSkewMs, lastSyncAt := 0.0, 0.0;
    }

    /** `_collect_sync_samples`: at least one request; `exchange` gives what the k-th one turns out to be. */
    method CollectSyncSamples(attempts: int, exchange: nat -> Exchange, ahead: real)
      returns (offsets: seq<real>, rtts: seq<real>)
      ensures |offsets| == |rtts| == if attempts > 1 then attempts else 1
      ensures var es := Replies(|offsets|, exchange); offsets == Offsets(es, ahead) && rtts == Rtts(es)
      ensures forall i | 0 <= i < |offsets| && exchange(i).Causal() :: Abs(offsets[i] - ahead) <= rtts[i] / 2.0
    {
      offsets, rtts := [], [];
      var requests := if attempts > 1 then attempts else 1;
      for i := 0 to requests
        invariant |offsets| == |rtts| == i
        invariant forall k | 0 <= k < i :: offsets[k] == exchange(k).Offset(ahead) && rtts[k] == exchange(k).Rtt()
      {
        var reply := exchange(i);
        var rtt := reply.Rtt();
        var serverMs, localMs := reply.stamped + ahead, reply.received;
        offsets := offsets + [serverMs + rtt / 2.0 - localMs];
        rtts := rtts + [rtt];
      }
      forall i | 0 <= i < |offsets| && exchange(i).Causal() ensures Abs(offsets[i] - ahead) <= rtts[i] / 2.0 {
        SampleError(exchange(i), ahead);
      }
    }

    /** `_apply_sync_samples` on a batch of pairs. */
    method ApplySyncSamples(offsets: seq<real>, rtts: seq<real>, cfg: Config, now: real)
      returns (skew: real, medianRtt: real)
      requires |offsets| == |rtts|
      modifies this
      ensures clockSkewMs == skew == Synced(old(clockSkewMs), offsets, rtts, cfg)
      ensures lastSyncAt == if offsets == [] then old(lastSyncAt) else now
      ensures var kept := Retained(offsets, rtts).1;
        medianRtt == if offsets == [] || kept == [] then 0.0 else Median(kept)
    {
      if offsets == [] {
        return clockSkewMs, 0.0;
      }
      var filteredOffsets, filteredRtts := offsets, rtts;
      if |filteredRtts| > 1 {
        var p90 := P90(filteredRtts);
        var paired := Paired(filteredOffsets, filteredRtts, p90);
        if paired != [] {
          filteredOffsets, filteredRtts := Firsts(paired), Seconds(paired);
        }
      }
      var median := Median(filteredOffsets);
      var alpha := Clamped(cfg.emaAlpha);
      var newSkew := Blend(alpha, clockSkewMs, median);
      var step := newSkew - clockSkewMs;
      if cfg.maxStepMs > 0.0 && Abs(step) > cfg.maxStepMs {
        newSkew := clockSkewMs + (if step < 0.0 then -cfg.maxStepMs else cfg.maxStepMs);
      }
      clockSkewMs := newSkew;
      lastSyncAt := now;
      medianRtt := Median(filteredRtts);
      skew := clockSkewMs;
    }
  }
}
