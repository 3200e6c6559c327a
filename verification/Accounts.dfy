// internal/router/router.go with internal/router/backend.go: what one undisturbed request
// leaves in the statistics of the pool.
module Accounts {
  import opened Completeness
  import opened Failover
  import opened Options
  import opened Rota
  import opened Targets

  function AttemptsAt(trace: seq<Attempt>, a: string): nat {
    if trace == [] then 0
    else AttemptsAt(trace[..|trace| - 1], a) + if trace[|trace| - 1].address == a then 1 else 0
  }

  function FailuresAt(trace: seq<Attempt>, a: string): nat {
    if trace == [] then 0
    else
      var last := trace[|trace| - 1];
      FailuresAt(trace[..|trace| - 1], a) + if last.address == a && !last.reply.ok then 1 else 0
  }

  // Each attempt is one request, each attempt that failed one failure, and no connection
  // is left behind; health and failures in a row may differ.
  ghost predicate Booked(before: seq<Target>, after: seq<Target>, trace: seq<Attempt>) {
    && |after| == |before|
    && forall k :: 0 <= k < |before| ==>
         after[k] == before[k].(
           requests := before[k].requests + AttemptsAt(trace, before[k].address),
           failures := before[k].failures + FailuresAt(trace, before[k].address),
           healthy := after[k].healthy,
           consecFail := after[k].consecFail)
  }

  // What one attempt makes of the target it was made at.
  lemma AttemptAt(pool: seq<Target>, k: nat, ok: bool)
    requires Distinct(pool) && k < |pool|
    ensures var a := pool[k].address;
            var after := Step(Step(Step(pool, RecordRequest(a)), CompleteRequest(a)),
                              if ok then RecordSuccess(a) else RecordFailure(a));
            && Distinct(after)
            && after == pool[k := if ok then pool[k].(requests := pool[k].requests + 1, consecFail := 0)
                                  else FailedTarget(pool[k], HealthyCount(pool) > 1)]
  {
    if ok {
      SucceededAt(pool, k);
    } else {
      FailedAttemptTarget(pool, k);
    }
    hide Step;
    hide Distinct;
    hide HealthyCount;
  }

  lemma SucceededAt(pool: seq<Target>, k: nat)
    requires Distinct(pool) && k < |pool|
    ensures var a := pool[k].address;
            var after := pool[k := pool[k].(requests := pool[k].requests + 1, consecFail := 0)];
            Step(Step(Step(pool, RecordRequest(a)), CompleteRequest(a)), RecordSuccess(a)) == after && Distinct(after)
  {
    hide Step;
    hide Distinct;
    hide HealthyCount;
    var t, many := pool[k], HealthyCount(pool) > 1;
    var t1 := Touch(t, RecordRequest(t.address), many);
    StepAt(pool, k, RecordRequest(t.address), t1);
    var t2 := Touch(t1, CompleteRequest(t.address), many);
    StepAt(pool[k := t1], k, CompleteRequest(t.address), t2);
    assert pool[k := t1][k := t2] == pool[k := t2];
    var t3 := Touch(t2, RecordSuccess(t.address), many);
    StepAt(pool[k := t2], k, RecordSuccess(t.address), t3);
    assert pool[k := t2][k := t3] == pool[k := t3];
  }

  lemma BookedOneMore(before: seq<Target>, now: seq<Target>, trace: seq<Attempt>, k: nat, u: Target, x: Attempt)
    requires Distinct(before) && Booked(before, now, trace) && k < |now| && x.address == now[k].address
    requires u == now[k].(requests := now[k].requests + 1,
                          failures := now[k].failures + (if x.reply.ok then 0 else 1),
                          healthy := u.healthy, consecFail := u.consecFail)
    ensures Booked(before, now[k := u], trace + [x])
  {
    assert (trace + [x])[..|trace|] == trace;
    forall j | 0 <= j < |before| && j != k ensures before[j].address != x.address {
      assert before[k].address == x.address;
    }
  }

  lemma TurnBooks(w: World, s: Progress, i: nat, canRetry: bool, before: seq<Target>)
    requires Silent(w) && Distinct(before) && Distinct(s.pool.targets) && Booked(before, s.pool.targets, s.trace)
    ensures var t := Turn(w, s, i, canRetry).0;
            Distinct(t.pool.targets) && Booked(before, t.pool.targets, t.trace)
  {
    hide Distinct;
    hide Booked;
    hide BodyFor;
    hide Step;
    var selected := Selected(s.pool, w.ip, w.draw(i));
    assert Disturb(s.pool, w.others(i, BeforeSelect)) == s.pool;
    var b := BodyFor(s.req, i);
    if selected.Some? && selected.value !in s.tried && b.Some? {
      var a := selected.value;
      var c := Choice(s.pool, w.ip, w.draw(i));
      RotationWithin(s.pool.targets, c);
      var k :| 0 <= k < |s.pool.targets| && s.pool.targets[k] == Rotation(s.pool.targets)[c];
      hide Selected;
      hide Rotation;
      var reply := w.serve(i, a, b.value);
      var s1 := s.(pool := Drawn(s.pool, w.ip), tried := s.tried + {a});
      SilentProxied(w, s1, i, a, b.value);
      AttemptAt(s.pool.targets, k, reply.ok);
      hide Drawn;
      hide Proxied;
      hide FailedAttempt;
      BookAttempt(w, s, s1, i, a, b.value, k, before);
    }
  }

  lemma BookAttempt(w: World, s: Progress, s1: Progress, i: nat, a: string, b: Body, k: nat, before: seq<Target>)
    requires Distinct(before) && Booked(before, s.pool.targets, s.trace)
    requires k < |s.pool.targets| && a == s.pool.targets[k].address && s1.trace == s.trace
    requires var ok := w.serve(i, a, b).ok;
             Proxied(w, s1, i, a, b).pool.targets ==
               s.pool.targets[k := if ok then s.pool.targets[k].(requests := s.pool.targets[k].requests + 1, consecFail := 0)
                                   else FailedTarget(s.pool.targets[k], HealthyCount(s.pool.targets) > 1)]
    ensures Booked(before, Proxied(w, s1, i, a, b).pool.targets, Proxied(w, s1, i, a, b).trace)
  {
    var t := s.pool.targets[k];
    var reply := w.serve(i, a, b);
    var u := if reply.ok then t.(requests := t.requests + 1, consecFail := 0)
             else FailedTarget(t, HealthyCount(s.pool.targets) > 1);
    BookedOneMore(before, s.pool.targets, s.trace, k, u, Attempt(a, b, reply));
    hide Booked;
    hide PoolAfter;
    hide HealthyCount;
    hide SentBy;
    hide Committing;
    hide UsedUp;
  }

  lemma {:induction false} LoopBooks(w: World, s: Progress, i: nat, max: nat, canRetry: bool, before: seq<Target>)
    requires Silent(w) && Distinct(before) && Distinct(s.pool.targets) && Booked(before, s.pool.targets, s.trace)
    ensures var r := Loop(w, s, i, max, canRetry); Booked(before, r.pool.targets, r.trace)
    decreases max - i
  {
    hide Turn;
    hide Distinct;
    hide Booked;
    if i >= max {
    } else {
      TurnBooks(w, s, i, canRetry, before);
      var (t, next) := Turn(w, s, i, canRetry);
      if next.Retry? {
        LoopBooks(w, t, i + 1, max, canRetry, before);
      }
    }
  }

  // Whatever the strategy and the replies, an undisturbed request is booked exactly.
  lemma RequestBooked(w: World, p: Pool, q: Req, max: nat)
    requires Silent(w) && Distinct(p.targets)
    ensures var r := Handle(w, p, q, max); Booked(p.targets, r.pool.targets, r.trace)
  {
    var (r, canRetry) := Prepared(p, q, max);
    LoopBooks(w, Progress(p, r, {}, [], [], false), 0, max, canRetry, p.targets);
  }
}
