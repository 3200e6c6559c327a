// internal/health/checker.go: the probe state machine of one target, on values.
module Health {
  datatype HealthState = Unknown | Healthy | Degraded | Unhealthy | Recovering

  datatype Check = Check(threshold: int, recovery: int, state: HealthState, consecFail: nat, consecPass: nat)

  // The callback's rule for keeping a backend in rotation.
  predicate InRotation(s: HealthState) {
    s.Healthy? || s.Degraded?
  }

  // A threshold that is not positive counts as three.
  function Limit(threshold: int): (t: int)
    ensures t >= 1
  {
    if threshold <= 0 then 3 else threshold
  }

  // checkOne, given the probe's outcome.
  function Probe(c: Check, ok: bool): Check {
    if ok then
      var passes := c.consecPass + 1;
      var state :=
        match c.state
        case Unknown => Healthy
        case Unhealthy => if c.recovery <= 0 || passes >= c.recovery then Healthy else Recovering
        case Recovering => if c.recovery <= 0 || passes >= c.recovery then Healthy else Recovering
        case Degraded => if passes >= 2 then Healthy else Degraded
        case Healthy => Healthy;
      c.(consecFail := 0, consecPass := passes, state := state)
    else
      var fails, limit := c.consecFail + 1, Limit(c.threshold);
      var state := if fails >= limit then Unhealthy else if fails >= limit / 2 then Degraded else c.state;
      Check(limit, c.recovery, state, fails, 0)
  }

  function After(c: Check, h: seq<bool>): Check {
    if h == [] then c else Probe(After(c, h[..|h| - 1]), h[|h| - 1])
  }

  function Registered(threshold: int, recovery: int): Check {
    Check(threshold, recovery, Unknown, 0, 0)
  }

  // Length of the run of `outcome` that ends a history.
  function Trailing(h: seq<bool>, outcome: bool): (n: nat)
    ensures n <= |h|
  {
    if h == [] || h[|h| - 1] != outcome then 0 else 1 + Trailing(h[..|h| - 1], outcome)
  }

  // The counters are the trailing runs, and a target is unhealthy exactly when its
  // last `threshold` probes all failed.
  lemma {:induction false} DecidedByHistory(t: int, r: int, h: seq<bool>)
    ensures var c := After(Registered(t, r), h);
            && c.consecFail == Trailing(h, false) && c.consecPass == Trailing(h, true)
            && Limit(c.threshold) == Limit(t) && c.recovery == r
            && (c.state == Unhealthy <==> Trailing(h, false) >= if t > 0 then t else 3)
  {
    if h == [] {
    } else {
      DecidedByHistory(t, r, h[..|h| - 1]);
    }
  }

  function Repeat(outcome: bool, n: nat): (h: seq<bool>)
    ensures |h| == n && forall i :: 0 <= i < n ==> h[i] == outcome
  {
    seq(n, i => outcome)
  }

  lemma {:induction false} AfterRepeat(c: Check, outcome: bool, n: nat)
    requires n > 0
    ensures After(c, Repeat(outcome, n)) == Probe(After(c, Repeat(outcome, n - 1)), outcome)
  {
    assert Repeat(outcome, n)[..n - 1] == Repeat(outcome, n - 1);
  }

  lemma {:induction false} AfterConcat(c: Check, g: seq<bool>, h: seq<bool>)
    ensures After(c, g + h) == After(After(c, g), h)
  {
    if h == [] {
      assert g + h == g;
    } else {
      assert (g + h)[..|g + h| - 1] == g + h[..|h| - 1];
      AfterConcat(c, g, h[..|h| - 1]);
    }
  }

  // From any state, `threshold` failures in a row lead to Unhealthy.
  lemma {:induction false} FailuresEject(c: Check, n: nat)
    ensures var d := After(c, Repeat(false, n));
            && d.consecFail == c.consecFail + n && d.recovery == c.recovery && Limit(d.threshold) == Limit(c.threshold)
            && (n >= Limit(c.threshold) ==> d.state == Unhealthy)
  {
    if n == 0 {
    } else {
      FailuresEject(c, n - 1);
      AfterRepeat(c, false, n);
    }
  }

  // From any state, max(2, recovery) passes in a row lead to Healthy.
  lemma {:induction false} PassesRestore(c: Check, n: nat)
    ensures var d := After(c, Repeat(true, n));
            && d.consecPass == c.consecPass + n && d.recovery == c.recovery && d.threshold == c.threshold
            && (c.state == Healthy ==> d.state == Healthy)
            && (n > 0 && c.state in {Unhealthy, Recovering} ==> d.state in {Healthy, Recovering})
            && (n > 0 && c.state == Degraded ==> d.state in {Healthy, Degraded})
            && (n > 0 && c.state == Unknown ==> d.state == Healthy)
            && (n >= 2 && n >= c.recovery ==> d.state == Healthy)
  {
    if n == 0 {
    } else {
      PassesRestore(c, n - 1);
      AfterRepeat(c, true, n);
      if n > 1 {
        AfterRepeat(c, true, n - 1);
      }
    }
  }

  // Runs of one outcome, exactly. Failures count on from those before ...
  lemma {:induction false} FailsExactly(c: Check, n: nat)
    requires n > 0
    ensures var fails, limit := c.consecFail + n, if c.threshold > 0 then c.threshold else 3;
            After(c, Repeat(false, n)) == Check(limit, c.recovery,
              if fails >= limit then Unhealthy else if 2 * fails + 1 >= limit then Degraded else c.state, fails, 0)
  {
    AfterRepeat(c, false, n);
    if n > 1 {
      FailsExactly(c, n - 1);
    } else {
      assert Repeat(false, 0) == [];
    }
  }

  // ... and passes from the last failure.
  lemma {:induction false} PassesExactly(c: Check, n: nat)
    requires n > 0 && c.consecPass == 0
    ensures After(c, Repeat(true, n)) == Check(c.threshold, c.recovery,
              match c.state
              case Unknown => Healthy
              case Healthy => Healthy
              case Degraded => (if n >= 2 then Healthy else Degraded)
              case _ => (if n >= c.recovery then Healthy else Recovering), 0, n)
  {
    AfterRepeat(c, true, n);
    if n > 1 {
      PassesExactly(c, n - 1);
    } else {
      assert Repeat(true, 0) == [];
    }
  }

  // A target that just went unhealthy is back after exactly max(1, recovery) passes.
  lemma {:induction false} RecoveryExactly(c: Check, n: nat)
    requires c.state == Unhealthy && c.consecPass == 0 && n > 0
    ensures After(c, Repeat(true, n)).consecPass == n && After(c, Repeat(true, n)).recovery == c.recovery
    ensures After(c, Repeat(true, n)).state == if n >= c.recovery then Healthy else Recovering
  {
    AfterRepeat(c, true, n);
    if n > 1 {
      RecoveryExactly(c, n - 1);
    }
  }

  // Does a target leave Unhealthy or Recovering for the rotation only on `recovery` passes?
  ghost predicate ReturnsOnlyAfterRecovery(t: int, r: int) {
    forall h: seq<bool>, ok: bool ::
      var c := After(Registered(t, r), h);
      c.state in {Unhealthy, Recovering} && InRotation(Probe(c, ok).state) ==> Trailing(h + [ok], true) >= r
  }

  // With recovery at most one no target is ever Recovering.
  lemma {:induction false} NoRecovering(t: int, r: int, h: seq<bool>)
    requires r <= 1
    ensures After(Registered(t, r), h).state != Recovering
  {
    if h == [] {
    } else {
      NoRecovering(t, r, h[..|h| - 1]);
      DecidedByHistory(t, r, h[..|h| - 1]);
    }
  }

  // It does exactly when a single failure is enough to be unhealthy or a single pass
  // enough to recover. Otherwise a pass followed by threshold/2 failures returns it.
  lemma ReturnsOnlyAfterRecoveryExactlyWhen(t: int, r: int)
    ensures ReturnsOnlyAfterRecovery(t, r) <==> Limit(t) == 1 || r <= 1
  {
    if Limit(t) == 1 || r <= 1 {
      forall h: seq<bool>, ok: bool
        ensures var c := After(Registered(t, r), h);
                c.state in {Unhealthy, Recovering} && InRotation(Probe(c, ok).state) ==> Trailing(h + [ok], true) >= r
      {
        DecidedByHistory(t, r, h);
        assert (h + [ok])[..|h|] == h;
        if r <= 1 {
          NoRecovering(t, r, h);
        }
      }
    } else {
      var h := EarlyReturn(t, r);
      assert !(Trailing(h + [false], true) >= r);
    }
  }

  lemma EarlyReturn(t: int, r: int) returns (h: seq<bool>)
    requires Limit(t) >= 2 && r >= 2
    ensures var c := After(Registered(t, r), h);
            c.state in {Unhealthy, Recovering} && InRotation(Probe(c, false).state)
    ensures Trailing(h + [false], true) == 0
  {
    var limit := Limit(t);
    var down := Repeat(false, limit);
    var c := After(Registered(t, r), down);
    FailuresEject(Registered(t, r), limit);
    DecidedByHistory(t, r, down);
    var d := Probe(c, true);
    assert d.state == Recovering;
    var n := limit / 2 - 1;
    StillRecovering(d, n);
    h := down + [true] + Repeat(false, n);
    AfterConcat(Registered(t, r), down + [true], Repeat(false, n));
    assert (down + [true])[..|down|] == down;
    assert (h + [false])[|h|] == false;
  }

  lemma {:induction false} StillRecovering(d: Check, n: nat)
    requires d.state == Recovering && d.consecFail == 0 && n < Limit(d.threshold) / 2
    ensures var e := After(d, Repeat(false, n));
            e.state == Recovering && e.consecFail == n && Limit(e.threshold) == Limit(d.threshold)
  {
    if n == 0 {
    } else {
      StillRecovering(d, n - 1);
      AfterRepeat(d, false, n);
    }
  }

  // When does the checker notify?

  // No probe of h changes the state, so the callback is never invoked.
  predicate Silent(c: Check, h: seq<bool>) {
    h == [] || (Silent(c, h[..|h| - 1]) && After(c, h).state == After(c, h[..|h| - 1]).state)
  }

  // The longest run of failures anywhere in h.
  function WorstStreak(h: seq<bool>): nat {
    if h == [] then 0
    else
      var before := WorstStreak(h[..|h| - 1]);
      if Trailing(h, false) > before then Trailing(h, false) else before
  }

  lemma {:induction false} OnlyFailures(n: nat)
    ensures WorstStreak(Repeat(false, n)) == Trailing(Repeat(false, n), false) == n
  {
    if n == 0 {
    } else {
      OnlyFailures(n - 1);
      assert Repeat(false, n)[..n - 1] == Repeat(false, n - 1);
    }
  }

  // Failures in a row that a healthy check passes over in silence are fewer than this.
  function Quiet(c: Check): (n: int)
    ensures n >= 1
  {
    if Limit(c.threshold) / 2 > 1 then Limit(c.threshold) / 2 else 1
  }

  // A check that is healthy has counted fewer, as long as its settings stay.
  lemma {:induction false} HealthyIsQuiet(t: int, r: int, h: seq<bool>)
    ensures var c := After(Registered(t, r), h);
            Limit(c.threshold) == Limit(t) && (c.state == Healthy ==> c.consecFail < Quiet(c))
  {
    if h == [] {
    } else {
      HealthyIsQuiet(t, r, h[..|h| - 1]);
    }
  }

  // While probes keep passing, or fail in runs shorter than threshold/2, those counted
  // before included, the checker says nothing.
  lemma {:induction false} SilentExactlyWhen(c: Check, h: seq<bool>)
    requires c.state == Healthy && c.consecFail < Quiet(c)
    ensures var all := Repeat(false, c.consecFail) + h;
            && (Silent(c, h) <==> WorstStreak(all) < Quiet(c))
            && (Silent(c, h) ==>
                  && After(c, h).state == Healthy && After(c, h).consecFail == Trailing(all, false)
                  && Limit(After(c, h).threshold) == Limit(c.threshold))
  {
    var all := Repeat(false, c.consecFail) + h;
    if h == [] {
      OnlyFailures(c.consecFail);
      assert all == Repeat(false, c.consecFail);
    } else {
      SilentExactlyWhen(c, h[..|h| - 1]);
      assert all[..|all| - 1] == Repeat(false, c.consecFail) + h[..|h| - 1];
    }
  }

  // checkAll: which ticks probe a target, given when it was last probed.

  datatype Timer = NeverRun | LastRun(at: int)

  predicate Due(last: Timer, interval: int, now: int) {
    last.NeverRun? || now - last.at >= interval
  }

  // The ticks at which a target is probed.
  function ProbeTimes(ticks: seq<int>, interval: int): seq<int> {
    if ticks == [] then []
    else
      var before, now := ProbeTimes(ticks[..|ticks| - 1], interval), ticks[|ticks| - 1];
      if Due(LastProbe(before), interval, now) then before + [now] else before
  }

  function LastProbe(probes: seq<int>): Timer {
    if probes == [] then NeverRun else LastRun(probes[|probes| - 1])
  }

  ghost predicate Ascending(ticks: seq<int>) {
    forall i, j :: 0 <= i < j < |ticks| ==> ticks[i] <= ticks[j]
  }

  // Probes are at least an interval apart, and no tick that comes an interval after the
  // last probe passes without one.
  lemma {:induction false} ProbesSpaced(ticks: seq<int>, interval: int)
    requires Ascending(ticks)
    ensures var ps := ProbeTimes(ticks, interval);
            && (forall i :: 0 < i < |ps| ==> ps[i] - ps[i - 1] >= interval)
            && (ticks != [] ==> ps != [] && ps[|ps| - 1] <= ticks[|ticks| - 1])
            && (ticks != [] && interval > 0 ==> ticks[|ticks| - 1] - ps[|ps| - 1] < interval)
  {
    if ticks == [] {
    } else {
      ProbesSpaced(ticks[..|ticks| - 1], interval);
    }
  }
}
