// internal/health/checker.go: the checker object. Each method is one critical section;
// the probe itself runs outside it and is a parameter.
module Checking {
  import opened Options
  import opened Health

  datatype Config = Config(interval: int, threshold: int, recovery: int)

  class HealthCheck {
    var interval: int
    var threshold: int
    var recovery: int
    var state: HealthState
    var consecFail: nat
    var consecPass: nat
    var lastCheck: Timer

    constructor (config: Config)
      ensures View() == Registered(config.threshold, config.recovery)
      ensures interval == config.interval && lastCheck == NeverRun
    {
      interval, threshold, recovery := config.interval, config.threshold, config.recovery;
      state, consecFail, consecPass, lastCheck := Unknown, 0, 0, NeverRun;
    }

    function View(): Check
      reads this
    {
      Check(threshold, recovery, state, consecFail, consecPass)
    }

    // checkOne after the probe: the state to notify, if it changed.
    method CheckOne(healthy: bool) returns (notify: Option<HealthState>)
      modifies this`threshold, this`state, this`consecFail, this`consecPass
      ensures View() == Probe(old(View()), healthy)
      ensures notify == if state != old(state) then Some(state) else None
    {
      var previous := state;
      if healthy {
        consecFail := 0;
        consecPass := consecPass + 1;
        if state == Unknown {
          state := Healthy;
        } else if state == Unhealthy || state == Recovering {
          if recovery <= 0 || consecPass >= recovery {
            state := Healthy;
          } else {
            state := Recovering;
          }
        } else if state == Degraded && consecPass >= 2 {
          state := Healthy;
        }
      } else {
        consecPass := 0;
        consecFail := consecFail + 1;
        if threshold <= 0 {
          threshold := 3;
        }
        if consecFail >= threshold {
          state := Unhealthy;
        } else if consecFail >= threshold / 2 {
          state := Degraded;
        }
      }
      notify := if state != previous then Some(state) else None;
    }
  }

  class Checker {
    var checks: map<string, HealthCheck>
    var interval: int

    ghost predicate Valid()
      reads this
    {
      forall s, t :: s in checks && t in checks && s != t ==> checks[s] != checks[t]
    }

    constructor (interval: int)
      ensures Valid() && checks == map[] && this.interval == interval
    {
      checks, this.interval := map[], interval;
    }

    // Register keeps the accumulated state of a target that is already there.
    method Register(target: string, config: Config)
      requires Valid()
      modifies this`checks, checks.Values
      ensures Valid() && checks.Keys == old(checks).Keys + {target}
      ensures forall t :: t in old(checks) && t != target ==> checks[t] == old(checks)[t] && unchanged(checks[t])
      ensures checks[target].interval == config.interval
      ensures checks[target].threshold == config.threshold && checks[target].recovery == config.recovery
      ensures if target in old(checks) then
                && checks[target] == old(checks)[target]
                && checks[target].View() == old(checks[target].View()).(threshold := config.threshold, recovery := config.recovery)
                && checks[target].lastCheck == old(checks[target].lastCheck)
              else
                && fresh(checks[target]) && checks[target].lastCheck == NeverRun
                && checks[target].View() == Registered(config.threshold, config.recovery)
    {
      if target in checks {
        var existing := checks[target];
        existing.interval := config.interval;
        existing.threshold := config.threshold;
        existing.recovery := config.recovery;
        return;
      }
      var check := new HealthCheck(config);
      checks := checks[target := check];
    }

    method Unregister(target: string)
      requires Valid()
      modifies this`checks
      ensures Valid() && checks == old(checks) - {target}
    {
      checks := checks - {target};
    }

    // The loop RemoveRoute runs over the stale targets.
    method UnregisterAll(stale: seq<string>)
      requires Valid()
      modifies this`checks
      ensures Valid() && checks == old(checks) - set t | t in stale
    {
      for i := 0 to |stale|
        invariant Valid() && checks == old(checks) - set t | t in stale[..i]
      {
        Unregister(stale[i]);
        assert stale[..i + 1] == stale[..i] + [stale[i]];
      }
      assert stale[..|stale|] == stale;
    }

    function IntervalOf(check: HealthCheck): int
      reads this, check
    {
      if check.interval <= 0 then interval else check.interval
    }

    // checkAll: stamp the targets that are due and hand them out for probing.
    method CheckAll(now: int) returns (due: set<string>)
      requires Valid()
      modifies checks.Values
      ensures forall t :: t in due <==>
                && t in checks
                && old(Due(checks[t].lastCheck, if checks[t].interval > 0 then checks[t].interval else interval, now))
      ensures forall t :: t in checks ==>
                && checks[t].lastCheck == (if t in due then LastRun(now) else old(checks[t].lastCheck))
                && checks[t].View() == old(checks[t].View()) && checks[t].interval == old(checks[t].interval)
    {
      due := {};
      var todo := checks.Keys;
      while todo != {}
        invariant todo <= checks.Keys
        invariant forall t :: t in todo ==> unchanged(checks[t])
        invariant forall t :: t in due <==>
                    t in checks && t !in todo && old(Due(checks[t].lastCheck, IntervalOf(checks[t]), now))
        invariant forall t :: t in checks ==>
                    && checks[t].lastCheck == (if t in due then LastRun(now) else old(checks[t].lastCheck))
                    && checks[t].View() == old(checks[t].View()) && checks[t].interval == old(checks[t].interval)
      {
        var t :| t in todo;
        todo := todo - {t};
        var check := checks[t];
        if Due(check.lastCheck, IntervalOf(check), now) {
          check.lastCheck := LastRun(now);
          due := due + {t};
        }
      }
    }
  }
}
