/** The black-swan counters of the generator's step: a remaining duration and a cooldown, driven by draws. */
module BlackSwan {
  datatype Params = Params(enabled: bool, durationSteps: int, cooldownSteps: int) {
    function Duration(): (d: int)
      ensures d >= 1
    {
      if durationSteps > 1 then durationSteps else 1
    }

    function Cooldown(): (c: int)
      ensures c >= 1
    {
      if cooldownSteps > 1 then cooldownSteps else 1
    }
  }

  datatype Counters = Counters(left: int, cooldown: int)

  const CALM := Counters(0, 0)

  /** The intensities are scaled up in this step. */
  predicate Amplifies(p: Params, c: Counters) {
    p.enabled && c.left > 0
  }

  /** The step triggers; `hit` says that the uniform draw fell below the probability. */
  predicate Fires(p: Params, c: Counters, hit: bool) {
    p.enabled && c.left <= 0 && (if c.cooldown > 0 then c.cooldown - 1 else c.cooldown) == 0 && hit
  }

  function Next(p: Params, c: Counters, hit: bool): Counters {
    if !p.enabled then c
    else if c.left > 0 then c.(left := c.left - 1)
    else if Fires(p, c, hit) then Counters(p.Duration(), p.Cooldown())
    else if c.cooldown > 0 then c.(cooldown := c.cooldown - 1)
    else c
  }

  /** The counters before step k of a run. */
  function At(p: Params, hits: seq<bool>, k: nat): Counters
    requires k <= |hits|
  {
    if k == 0 then CALM else Next(p, At(p, hits, k - 1), hits[k - 1])
  }

  ghost predicate TriggersAt(p: Params, hits: seq<bool>, k: nat) {
    k < |hits| && Fires(p, At(p, hits, k), hits[k])
  }

  ghost predicate AmplifiesAt(p: Params, hits: seq<bool>, k: nat) {
    k < |hits| && Amplifies(p, At(p, hits, k))
  }

  /** The last trigger before step k was at step t. */
  ghost predicate LastTrigger(p: Params, hits: seq<bool>, k: nat, t: nat) {
    t < k && TriggersAt(p, hits, t) && forall j: nat | t < j < k :: !TriggersAt(p, hits, j)
  }

  /** The counters n steps after a trigger, while nothing else has triggered. */
  function After(p: Params, n: nat): Counters {
    if n <= p.Duration() then Counters(p.Duration() - n, p.Cooldown())
    else if n <= p.Duration() + p.Cooldown() then Counters(0, p.Cooldown() - (n - p.Duration()))
    else CALM
  }

  lemma {:induction false} CountersFollowTrigger(p: Params, hits: seq<bool>, k: nat)
    requires p.enabled && k <= |hits|
    ensures (forall t: nat | t < k :: !TriggersAt(p, hits, t)) ==> At(p, hits, k) == CALM
    ensures forall t: nat | LastTrigger(p, hits, k, t) :: At(p, hits, k) == After(p, k - 1 - t)
  {
    if k > 0 {
      CountersFollowTrigger(p, hits, k - 1);
      forall t: nat | LastTrigger(p, hits, k, t) ensures At(p, hits, k) == After(p, k - 1 - t) {
        assert t < k - 1 ==> LastTrigger(p, hits, k - 1, t) && !TriggersAt(p, hits, k - 1);
      }
      if forall t: nat | t < k :: !TriggersAt(p, hits, t) {
        assert !TriggersAt(p, hits, k - 1);
      }
    }
  }

  lemma {:induction false} TriggerOrNone(p: Params, hits: seq<bool>, k: nat)
    ensures (forall t: nat | t < k :: !TriggersAt(p, hits, t)) || exists t: nat :: LastTrigger(p, hits, k, t)
  {
    if k > 0 {
      if TriggersAt(p, hits, k - 1) {
        assert LastTrigger(p, hits, k, k - 1);
      } else {
        var before: nat := k - 1;
        TriggerOrNone(p, hits, before);
        if exists t: nat :: LastTrigger(p, hits, before, t) {
          var t: nat :| LastTrigger(p, hits, before, t);
          assert LastTrigger(p, hits, k, t);
        }
      }
    }
  }

  /** A step triggers exactly when its draw hits and every earlier trigger is at least
      max(1, duration) + max(1, cooldown) steps back, whatever the draws. */
  lemma TriggersExactly(p: Params, hits: seq<bool>, k: nat)
    requires p.enabled && k < |hits|
    ensures TriggersAt(p, hits, k) <==>
      hits[k] && forall t: nat | t < k && TriggersAt(p, hits, t) :: k - t >= p.Duration() + p.Cooldown()
  {
    CountersFollowTrigger(p, hits, k);
    TriggerOrNone(p, hits, k);
    if exists s: nat :: LastTrigger(p, hits, k, s) {
      var s: nat :| LastTrigger(p, hits, k, s);
      assert At(p, hits, k) == After(p, k - 1 - s);
      assert forall t: nat | t < k && TriggersAt(p, hits, t) :: t <= s;
    }
  }

  /** The intensities are amplified exactly in the max(1, duration) steps that follow a trigger. */
  lemma AmplifiesExactly(p: Params, hits: seq<bool>, k: nat)
    requires p.enabled && k < |hits|
    ensures AmplifiesAt(p, hits, k) <==> exists t: nat :: t < k <= t + p.Duration() && TriggersAt(p, hits, t)
  {
    CountersFollowTrigger(p, hits, k);
    TriggerOrNone(p, hits, k);
    if exists s: nat :: LastTrigger(p, hits, k, s) {
      var s: nat :| LastTrigger(p, hits, k, s);
      assert At(p, hits, k) == After(p, k - 1 - s);
      assert forall t: nat | t < k && TriggersAt(p, hits, t) :: t <= s;
      assert k <= s + p.Duration() <==> AmplifiesAt(p, hits, k);
    }
  }
}
