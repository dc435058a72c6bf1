/** The reservoir of the random cancellation, by its draws: which orders it holds, and how often it holds each
    when every draw is equally likely. The counter of orders seen advances twice for an order met when the
    reservoir is full, so the i-th such order is drawn for among n + 2 i numbers and not among n + i. */
module Reservoir {
  import opened Reals

  // ---------- the reservoir as a function of the draws ----------

  /** How many numbers the draw for the order at place k is made among; k is n or more. */
  function Among(n: nat, k: nat): int {
    2 * k - n + 2
  }

  /** `seen` after k orders. */
  function Seen(n: nat, k: nat): int {
    if k <= n then k else 2 * k - n
  }

  function Replace(slots: seq<nat>, n: nat, k: nat, draw: nat): (r: seq<nat>)
    requires |slots| == n
    ensures |r| == n
  {
    if draw < n then slots[draw := k] else slots
  }

  function FirstPlaces(k: nat): (r: seq<nat>)
    ensures |r| == k && forall i | 0 <= i < k :: r[i] == i
  {
    seq(k, i requires 0 <= i < k => i)
  }

  /** The places of the orders held after k orders; one draw for each order beyond the n-th. */
  function Held(n: nat, k: nat, draws: seq<nat>): (r: seq<nat>)
    requires k - n <= |draws|
    ensures |r| == if k <= n then k else n
    ensures forall i | 0 <= i < |r| :: r[i] < k
  {
    if k <= n then FirstPlaces(k) else Replace(Held(n, k - 1, draws), n, k - 1, draws[k - 1 - n])
  }

  lemma {:induction false} HeldIgnores(n: nat, k: nat, draws: seq<nat>, draw: nat)
    requires k - n <= |draws|
    ensures Held(n, k, draws + [draw]) == Held(n, k, draws)
  {
    if k > n {
      HeldIgnores(n, k - 1, draws, draw);
    }
  }

  lemma HeldNext(n: nat, k: nat, draws: seq<nat>, draw: nat)
    requires n <= k && |draws| == k - n
    ensures Held(n, k + 1, draws + [draw]) == Replace(Held(n, k, draws), n, k, draw)
  {
    HeldIgnores(n, k, draws, draw);
  }

  /** Every draw is within the range it is made in. */
  ghost predicate InRange(n: nat, draws: seq<nat>) {
    forall i | 0 <= i < |draws| :: draws[i] < Among(n, n + i)
  }

  lemma InRangeNext(n: nat, k: nat, draws: seq<nat>, draw: nat)
    requires InRange(n, draws) && n <= k && |draws| == k - n && draw < Among(n, k)
    ensures InRange(n, draws + [draw])
  {
  }

  lemma {:induction false} HeldAreDistinct(n: nat, k: nat, draws: seq<nat>)
    requires k - n <= |draws|
    ensures forall i, j | 0 <= i < j < |Held(n, k, draws)| :: Held(n, k, draws)[i] != Held(n, k, draws)[j]
  {
    if k > n {
      HeldAreDistinct(n, k - 1, draws);
    }
  }

  // ---------- equally likely draws ----------

  function SumTo(n: nat, f: nat -> real): real {
    if n == 0 then 0.0 else SumTo(n - 1, f) + f(n - 1)
  }

  /** With every draw equally likely and independent: how often the order at place j is held after m orders, given
      what is held after k of them. */
  function Chance(slots: seq<nat>, n: nat, k: nat, m: nat, j: nat): real
    requires |slots| == n <= k
    decreases m - k, 1
  {
    if k >= m then (if j in slots then 1.0 else 0.0)
    else SumTo(Among(n, k), AfterEach(slots, n, k, m, j)) / Among(n, k) as real
  }

  /** The same after one more draw. */
  function AfterEach(slots: seq<nat>, n: nat, k: nat, m: nat, j: nat): nat -> real
    requires |slots| == n <= k < m
    decreases m - k, 0
  {
    (draw: nat) => Chance(Replace(slots, n, k, draw), n, k + 1, m, j)
  }

  /** How often what is held after k orders is still held after m. */
  function Stays(n: nat, k: nat, m: nat): real
    requires n <= k
    decreases m - k
  {
    if k >= m then 1.0 else Product(1.0 - 1.0 / Among(n, k) as real, Stays(n, k + 1, m))
  }

  lemma OneMoreTime(a: real, x: real)
    ensures Product(a + 1.0, x) == Product(a, x) + x
  {
  }

  lemma {:induction false} SumOfSame(n: nat, f: nat -> real, x: real)
    requires forall d: nat | d < n :: f(d) == x
    ensures SumTo(n, f) == Product(n as real, x)
  {
    if n > 0 {
      SumOfSame(n - 1, f, x);
      OneMoreTime((n - 1) as real, x);
    }
  }

  /** x for the numbers below cut and 0 from there on. */
  lemma {:induction false} SumOfFirst(n: nat, f: nat -> real, cut: nat, x: real)
    requires cut <= n && forall d: nat | d < n :: f(d) == if d < cut then x else 0.0
    ensures SumTo(n, f) == Product(cut as real, x)
  {
    if n == cut {
      SumOfSame(n, f, x);
    } else {
      SumOfFirst(n - 1, f, cut, x);
    }
  }

  /** x for every number but one, and 0 for that. */
  lemma {:induction false} SumOfAllBut(n: nat, f: nat -> real, p: nat, x: real)
    requires p < n && forall d: nat | d < n :: f(d) == if d == p then 0.0 else x
    ensures SumTo(n, f) == Product((n - 1) as real, x)
  {
    if p == n - 1 {
      SumOfSame(n - 1, f, x);
    } else {
      SumOfAllBut(n - 1, f, p, x);
      OneMoreTime((n - 2) as real, x);
    }
  }

  ghost predicate Places(slots: seq<nat>, n: nat, k: nat) {
    && |slots| == n <= k
    && (forall i | 0 <= i < n :: slots[i] < k)
    && forall i, j | 0 <= i < j < n :: slots[i] != slots[j]
  }

  /** The value of `Chance`: what is held stays, what was dropped never returns, what is still to come is drawn
      in and then stays. */
  function ChanceIs(slots: seq<nat>, n: nat, k: nat, m: nat, j: nat): real
    requires n <= k
  {
    if j in slots then Stays(n, k, m)
    else if j < k || j >= m then 0.0
    else Product(n as real / Among(n, j) as real, Stays(n, j + 1, m))
  }

  lemma ReplaceKeepsPlaces(slots: seq<nat>, n: nat, k: nat, draw: nat)
    requires Places(slots, n, k)
    ensures Places(Replace(slots, n, k, draw), n, k + 1)
  {
  }

  /** What one draw makes of the chance of the order at place j. */
  lemma AfterDraw(slots: seq<nat>, n: nat, k: nat, m: nat, j: nat, draw: nat, p: nat)
    requires Places(slots, n, k) && k < m && j < m && (j in slots ==> p < n && slots[p] == j)
    ensures ChanceIs(Replace(slots, n, k, draw), n, k + 1, m, j) ==
      if j in slots then (if draw == p then 0.0 else Stays(n, k + 1, m))
      else if j == k then (if draw < n then Stays(n, k + 1, m) else 0.0)
      else ChanceIs(slots, n, k, m, j)
  {
    var next := Replace(slots, n, k, draw);
    if j in slots {
      if draw != p {
        assert next[p] == j;
      } else {
        assert forall i | 0 <= i < n :: next[i] != j;
      }
    } else if j == k {
      assert draw < n ==> next[draw] == j;
    } else {
      assert forall i | 0 <= i < n :: next[i] != j;
    }
  }

  lemma SharedOut(cut: real, among: real, x: real)
    requires among > 0.0
    ensures Product(cut, x) / among == Product(cut / among, x)
  {
  }

  lemma OneLess(among: real, x: real)
    requires among > 0.0
    ensures Product(among - 1.0, x) / among == Product(1.0 - 1.0 / among, x)
  {
    assert (among - 1.0) / among == 1.0 - 1.0 / among;
    SharedOut(among - 1.0, among, x);
  }

  lemma WholeShare(among: real, x: real)
    requires among > 0.0
    ensures Product(among, x) / among == x
  {
  }

  /** f gives, for each draw, the chance after it. */
  ghost predicate GivesNext(f: nat -> real, slots: seq<nat>, n: nat, k: nat, m: nat, j: nat) {
    Places(slots, n, k) && k < m && j < m &&
    forall d: nat | d < Among(n, k) :: f(d) == ChanceIs(Replace(slots, n, k, d), n, k + 1, m, j)
  }

  lemma AverageOfHeld(slots: seq<nat>, n: nat, k: nat, m: nat, j: nat, f: nat -> real)
    requires GivesNext(f, slots, n, k, m, j) && j in slots
    ensures SumTo(Among(n, k), f) / Among(n, k) as real == ChanceIs(slots, n, k, m, j)
  {
    var p: nat :| p < n && slots[p] == j;
    forall d: nat | d < Among(n, k) ensures f(d) == if d == p then 0.0 else Stays(n, k + 1, m) {
      AfterDraw(slots, n, k, m, j, d, p);
    }
    SumOfAllBut(Among(n, k), f, p, Stays(n, k + 1, m));
    OneLess(Among(n, k) as real, Stays(n, k + 1, m));
  }

  lemma AverageOfNext(slots: seq<nat>, n: nat, k: nat, m: nat, f: nat -> real)
    requires GivesNext(f, slots, n, k, m, k) && k !in slots
    ensures SumTo(Among(n, k), f) / Among(n, k) as real == ChanceIs(slots, n, k, m, k)
  {
    forall d: nat | d < Among(n, k) ensures f(d) == if d < n then Stays(n, k + 1, m) else 0.0 {
      AfterDraw(slots, n, k, m, k, d, 0);
    }
    SumOfFirst(Among(n, k), f, n, Stays(n, k + 1, m));
    SharedOut(n as real, Among(n, k) as real, Stays(n, k + 1, m));
  }

  lemma AverageOfOther(slots: seq<nat>, n: nat, k: nat, m: nat, j: nat, f: nat -> real)
    requires GivesNext(f, slots, n, k, m, j) && j !in slots && j != k
    ensures SumTo(Among(n, k), f) / Among(n, k) as real == ChanceIs(slots, n, k, m, j)
  {
    forall d: nat | d < Among(n, k) ensures f(d) == ChanceIs(slots, n, k, m, j) {
      AfterDraw(slots, n, k, m, j, d, 0);
    }
    SumOfSame(Among(n, k), f, ChanceIs(slots, n, k, m, j));
    WholeShare(Among(n, k) as real, ChanceIs(slots, n, k, m, j));
  }

  lemma {:induction false} ChanceInClosedForm(slots: seq<nat>, n: nat, k: nat, m: nat, j: nat)
    requires Places(slots, n, k) && j < m
    ensures Chance(slots, n, k, m, j) == ChanceIs(slots, n, k, m, j)
    decreases m - k
  {
    if k < m {
      var f := AfterEach(slots, n, k, m, j);
      forall d: nat | d < Among(n, k) ensures f(d) == ChanceIs(Replace(slots, n, k, d), n, k + 1, m, j) {
        ReplaceKeepsPlaces(slots, n, k, d);
        ChanceInClosedForm(Replace(slots, n, k, d), n, k + 1, m, j);
      }
      if j in slots {
        AverageOfHeld(slots, n, k, m, j, f);
      } else if j == k {
        AverageOfNext(slots, n, k, m, f);
      } else {
        AverageOfOther(slots, n, k, m, j, f);
      }
    }
  }

  // ---------- how fair the sample is ----------

  /** How often the order at place j of m is cancelled when n are asked for. */
  function Share(n: nat, m: nat, j: nat): real {
    if m <= n then 1.0 else Chance(FirstPlaces(n), n, n, m, j)
  }

  /** Of more than n orders, the first n are cancelled as often as all later draws spare their place, and a later
      one as often as it is drawn and then spared. */
  lemma ShareExactly(n: nat, m: nat, j: nat)
    requires n < m && j < m
    ensures Share(n, m, j) ==
      if j < n then Stays(n, n, m) else Product(n as real / (2 * j - n + 2) as real, Stays(n, j + 1, m))
  {
    ChanceInClosedForm(FirstPlaces(n), n, n, m, j);
    assert j < n ==> FirstPlaces(n)[j] == j;
  }

  lemma {:induction false} StaysIsPositive(n: nat, k: nat, m: nat)
    requires n <= k
    ensures 0.0 < Stays(n, k, m) <= 1.0
    decreases m - k
  {
    if k < m {
      StaysIsPositive(n, k + 1, m);
      ShareOfPart(Among(n, k) as real, Stays(n, k + 1, m));
    }
  }

  lemma ShareOfPart(among: real, x: real)
    requires among >= 2.0 && 0.0 < x <= 1.0
    ensures 0.0 < Product(1.0 - 1.0 / among, x) <= 1.0
  {
    var rest := 1.0 - 1.0 / among;
    assert 0.0 < 1.0 / among <= 0.5;
    assert 0.0 < rest * x;
    assert (1.0 - rest) * x >= 0.0;
  }

  lemma PositivePart(a: real, b: real, x: real)
    requires a > 0.0 && b > 0.0 && x > 0.0
    ensures Product(a / b, x) > 0.0
  {
    assert a / b > 0.0;
  }

  /** Every public order can be drawn. */
  lemma ShareIsPositive(n: nat, m: nat, j: nat)
    requires 0 < n && j < m
    ensures Share(n, m, j) > 0.0
  {
    if n < m {
      ShareExactly(n, m, j);
      if j < n {
        StaysIsPositive(n, n, m);
      } else {
        StaysIsPositive(n, j + 1, m);
        PositivePart(n as real, (2 * j - n + 2) as real, Stays(n, j + 1, m));
      }
    }
  }

  lemma LastShare(n: nat, m: nat)
    requires 0 < n < m
    ensures Share(n, m, m - 1) == n as real / (2 * m - n) as real
  {
    var j: nat := m - 1;
    ShareExactly(n, m, j);
    assert 2 * j - n + 2 == 2 * m - n && Stays(n, j + 1, m) == 1.0;
    Once(n as real / (2 * m - n) as real);
  }

  lemma Once(x: real)
    ensures Product(x, 1.0) == x
  {
  }

  /** The sample is fair, each of m orders being cancelled in min(n, m) of m cases, if and only if all are: with
      more orders than are asked for, the last one is cancelled too seldom. */
  lemma FairExactly(n: nat, m: nat)
    requires 0 < n && 0 < m
    ensures (forall j: nat | j < m :: Share(n, m, j) == (if n < m then n else m) as real / m as real) <==> m <= n
  {
    if n < m {
      var last: nat := m - 1;
      LastShare(n, m);
      LargerDivisor(n as real, m as real, (2 * m - n) as real);
      assert Share(n, m, last) < n as real / m as real;
    } else {
      WholeShare(m as real, 1.0);
    }
  }

  /** Of two orders, when one is to be cancelled, the first is it in two of three cases. */
  lemma OneOfTwo()
    ensures Share(1, 2, 0) == 2.0 / 3.0 && Share(1, 2, 1) == 1.0 / 3.0
  {
    ShareExactly(1, 2, 0);
    assert Stays(1, 2, 2) == 1.0;
    Once(1.0 - 1.0 / 3.0);
    LastShare(1, 2);
  }

  lemma LargerDivisor(a: real, b: real, c: real)
    requires a > 0.0 && 0.0 < b < c
    ensures a / c < a / b
  {
    assert a / c * c == a && a / b * b == a;
  }
}
