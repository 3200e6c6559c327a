// internal/router/backend.go with internal/health/checker.go: how long a target that proxy
// errors have ejected stays out of rotation.
module Recovery {
  import opened Health
  import opened Targets
  import C = Callbacks

  // Recorded results of any address, and what happens to the check of one, in any interleaving.
  datatype Event = Recorded(op: Op) | Checked(event: C.Event)

  datatype Joint = Joint(pool: seq<Target>, calls: C.System)

  // A callback that runs marks the address.
  function Next(j: Joint, a: string, e: Event): Joint {
    match e
    case Recorded(op) => j.(pool := Step(j.pool, op))
    case Checked(event) =>
      if !C.Enabled(j.calls, event) then j
      else
        var calls := C.Next(j.calls, event);
        if event.Probed? then j.(calls := calls)
        else Joint(Step(j.pool, if calls.healthy then MarkHealthy(a) else MarkUnhealthy(a)), calls)
  }

  function RunOf(j: Joint, a: string, events: seq<Event>): Joint {
    if events == [] then j else Next(RunOf(j, a, events[..|events| - 1]), a, events[|events| - 1])
  }

  function Checks(events: seq<Event>): seq<C.Event> {
    if events == [] then []
    else
      var e := events[|events| - 1];
      Checks(events[..|events| - 1]) + if e.Checked? then [e.event] else []
  }

  function Probes(events: seq<C.Event>): seq<bool> {
    if events == [] then []
    else
      var e := events[|events| - 1];
      Probes(events[..|events| - 1]) + if e.Probed? then [e.ok] else []
  }

  ghost predicate OnlyResults(events: seq<Event>) {
    forall n :: 0 <= n < |events| && events[n].Recorded? ==> Passive(events[n].op)
  }

  // The i-th target is out of rotation after each event.
  predicate StaysOut(j: Joint, a: string, events: seq<Event>, i: nat) {
    var pool := RunOf(j, a, events).pool;
    && i < |pool| && !pool[i].healthy
    && (events == [] || StaysOut(j, a, events[..|events| - 1], i))
  }

  // No callback that has run reported a state in rotation.
  ghost predicate DeliveredOut(s: C.System) {
    forall n :: 0 <= n < |s.issued| && n !in s.waiting ==> !InRotation(s.issued[n])
  }

  // No callback at all does.
  ghost predicate IssuedOut(s: C.System) {
    forall n :: 0 <= n < |s.issued| ==> !InRotation(s.issued[n])
  }

  lemma MarkedAt(pool: seq<Target>, i: nat, healthy: bool)
    requires Distinct(pool) && i < |pool|
    ensures var a := pool[i].address;
            var after := Step(pool, if healthy then MarkHealthy(a) else MarkUnhealthy(a));
            && |after| == |pool| && Distinct(after) && after[i].address == a && after[i].healthy == healthy
  {
    var a := pool[i].address;
    assert AddressIndex(pool, a) == i;
    StepKeepsDistinct(pool, if healthy then MarkHealthy(a) else MarkUnhealthy(a));
    hide HealthyCount;
  }

  // A recorded result puts nobody into rotation.
  lemma ResultLeavesOut(pool: seq<Target>, op: Op, i: nat)
    requires Distinct(pool) && Passive(op) && i < |pool|
    ensures var after := Step(pool, op);
            && |after| == |pool| && Distinct(after) && after[i].address == pool[i].address
            && (after[i].healthy ==> pool[i].healthy)
  {
    StepKeepsDistinct(pool, op);
    hide HealthyCount;
  }

  // One event, seen by the target that is out.
  lemma NextOut(k: Joint, a: string, e: Event, i: nat)
    requires Distinct(k.pool) && i < |k.pool| && k.pool[i].address == a && (e.Recorded? ==> Passive(e.op))
    ensures var n := Next(k, a, e);
            && Distinct(n.pool) && |n.pool| == |k.pool| && n.pool[i].address == a
            && n.calls == (if e.Checked? && C.Enabled(k.calls, e.event) then C.Next(k.calls, e.event) else k.calls)
            && (!k.pool[i].healthy && DeliveredOut(k.calls) ==> (n.pool[i].healthy <==> !DeliveredOut(n.calls)))
            && (DeliveredOut(n.calls) ==> DeliveredOut(k.calls))
  {
    if e.Recorded? {
      ResultLeavesOut(k.pool, e.op, i);
    } else if C.Enabled(k.calls, e.event) {
      NextDelivered(k.calls, e.event);
      MarkedAt(k.pool, i, C.Next(k.calls, e.event).healthy);
    }
    hide Step;
    hide Distinct;
    hide Probe;
    hide DeliveredOut;
  }

  lemma NextDelivered(s: C.System, e: C.Event)
    requires C.Enabled(s, e)
    ensures var t := C.Next(s, e);
            DeliveredOut(t) <==> DeliveredOut(s) && (e.Delivered? ==> !t.healthy)
  {
    hide Probe;
    var t := C.Next(s, e);
    assert forall n :: 0 <= n < |s.issued| ==> t.issued[n] == s.issued[n];
    if e.Delivered? && DeliveredOut(t) {
      assert !InRotation(t.issued[e.n]);
    }
  }

  // The callbacks are those of the checks alone, and the target is out exactly as long as no
  // callback that has run put it into rotation.
  lemma {:induction false} OutExactlyWhen(j: Joint, a: string, events: seq<Event>, i: nat)
    requires Distinct(j.pool) && i < |j.pool| && j.pool[i].address == a && !j.pool[i].healthy && OnlyResults(events)
    requires j.calls == C.RunOf(j.calls.check, j.calls.healthy, [])
    ensures var k := RunOf(j, a, events);
            && k.calls == C.RunOf(j.calls.check, j.calls.healthy, Checks(events))
            && Distinct(k.pool) && |k.pool| == |j.pool| && k.pool[i].address == a
            && (StaysOut(j, a, events, i) <==> DeliveredOut(k.calls))
  {
    if events == [] {
    } else {
      var e, before := events[|events| - 1], events[..|events| - 1];
      OutExactlyWhen(j, a, before, i);
      NextChecks(j.calls.check, j.calls.healthy, events);
      NextOut(RunOf(j, a, before), a, e, i);
      hide Next;
      hide Distinct;
      hide DeliveredOut;
      hide C.RunOf;
      hide C.Next;
      hide C.Enabled;
      hide Checks;
    }
  }

  lemma NextChecks(c: Check, healthy: bool, events: seq<Event>)
    requires events != []
    ensures var s := C.RunOf(c, healthy, Checks(events[..|events| - 1]));
            var e := events[|events| - 1];
            C.RunOf(c, healthy, Checks(events)) ==
              if e.Checked? && C.Enabled(s, e.event) then C.Next(s, e.event) else s
  {
    hide C.Next;
    hide C.Enabled;
    var before, e := Checks(events[..|events| - 1]), events[|events| - 1];
    if e.Checked? {
      assert (before + [e.event])[..|before|] == before;
    } else {
      assert before + [] == before;
    }
  }

  // The checker sees the probes alone.

  // No probe of h has been answered by a callback that puts the target into rotation.
  predicate NeverReturned(c: Check, h: seq<bool>) {
    h == [] ||
    var before := h[..|h| - 1];
    NeverReturned(c, before) &&
      (After(c, h).state != After(c, before).state ==> !InRotation(After(c, h).state))
  }

  lemma {:induction false} IssuedByProbes(c: Check, healthy: bool, events: seq<C.Event>)
    ensures var s := C.RunOf(c, healthy, events);
            && s.check == After(c, Probes(events))
            && (IssuedOut(s) <==> NeverReturned(c, Probes(events)))
  {
    hide Probe;
    if events == [] {
    } else {
      var e, before := events[|events| - 1], events[..|events| - 1];
      IssuedByProbes(c, healthy, before);
      var s, h := C.RunOf(c, healthy, before), Probes(before);
      if e.Probed? {
        assert (h + [e.ok])[..|h|] == h;
        NextIssued(s, e);
      } else {
        assert Probes(events) == h + [] == h;
      }
    }
  }

  lemma NextIssued(s: C.System, e: C.Event)
    requires e.Probed?
    ensures var t := C.Next(s, e);
            && t.check == Probe(s.check, e.ok)
            && (IssuedOut(t) <==> IssuedOut(s) && (t.check.state != s.check.state ==> !InRotation(t.check.state)))
  {
    hide Probe;
    var t := C.Next(s, e);
    assert forall n :: 0 <= n < |s.issued| ==> t.issued[n] == s.issued[n];
    if t.check.state != s.check.state && IssuedOut(t) {
      assert !InRotation(t.issued[|s.issued|]);
    }
  }

  // With a threshold above one, the first probes to be answered are half a threshold of
  // failures: the target is degraded, and back in rotation.
  lemma {:induction false} DegradedReturns(c: Check, h: seq<bool>)
    requires c.state == Healthy && c.consecFail < Quiet(c) && Limit(c.threshold) >= 2
    ensures NeverReturned(c, h) <==> WorstStreak(Repeat(false, c.consecFail) + h) < Quiet(c)
  {
    SilentExactlyWhen(c, h);
    if h == [] {
    } else {
      var before := h[..|h| - 1];
      DegradedReturns(c, before);
      SilentExactlyWhen(c, before);
      hide WorstStreak;
    }
  }

  // With threshold one, a failure takes the target out for good until it has recovered.
  function HasFailure(h: seq<bool>): bool {
    h != [] && (!h[|h| - 1] || HasFailure(h[..|h| - 1]))
  }

  // Some failure is followed by max(1, recovery) passes in a row.
  predicate Recovers(h: seq<bool>, recovery: int) {
    h != [] &&
    (Recovers(h[..|h| - 1], recovery)
     || (h[|h| - 1] && HasFailure(h) && Trailing(h, true) >= recovery))
  }

  lemma {:induction false} OneFailureOut(c: Check, h: seq<bool>)
    requires c.state == Healthy && Limit(c.threshold) == 1
    ensures NeverReturned(c, h) <==> !Recovers(h, c.recovery)
    ensures var d := After(c, h);
            && Limit(d.threshold) == 1 && d.recovery == c.recovery
            && (d.consecPass == Trailing(h, true) || !HasFailure(h))
            && (NeverReturned(c, h) ==>
                  if !HasFailure(h) then d.state == Healthy
                  else d.state in {Unhealthy, Recovering})
  {
    if h == [] {
    } else {
      OneFailureOut(c, h[..|h| - 1]);
    }
  }

  // The probes of h bring no half threshold of failures in a row, those counted before
  // included, or, with threshold one, no failure and then max(1, recovery) passes in a row.
  predicate KeepsOut(c: Check, h: seq<bool>) {
    if Limit(c.threshold) >= 2 then WorstStreak(Repeat(false, c.consecFail) + h) < Quiet(c)
    else !Recovers(h, c.recovery)
  }

  // A target ejected by proxy errors while its checker holds it for healthy stays out of
  // rotation, whenever its callbacks run, if its probes keep it out, and, once the callbacks
  // have run, only if they did.
  lemma EjectedStaysOutExactlyWhen(j: Joint, a: string, events: seq<Event>, i: nat)
    requires Distinct(j.pool) && i < |j.pool| && j.pool[i].address == a && !j.pool[i].healthy && OnlyResults(events)
    requires j.calls == C.RunOf(j.calls.check, j.calls.healthy, [])
    requires j.calls.check.state == Healthy && j.calls.check.consecFail < Quiet(j.calls.check)
    ensures KeepsOut(j.calls.check, Probes(Checks(events))) ==> StaysOut(j, a, events, i)
    ensures RunOf(j, a, events).calls.waiting == {} ==>
              (StaysOut(j, a, events, i) <==> KeepsOut(j.calls.check, Probes(Checks(events))))
  {
    var c, h := j.calls.check, Probes(Checks(events));
    OutExactlyWhen(j, a, events, i);
    IssuedByProbes(c, j.calls.healthy, Checks(events));
    if Limit(c.threshold) >= 2 {
      DegradedReturns(c, h);
    } else {
      OneFailureOut(c, h);
    }
    hide StaysOut;
    hide RunOf;
    hide C.RunOf;
    hide NeverReturned;
  }
}
