// internal/router/backend.go: what a target has become after any calls, read off the calls.
module Ledger {
  import opened Targets

  predicate At(op: Op, a: string) {
    !op.Remove? && OpAddress(op) == a
  }

  ghost predicate NoneRemoved(ops: seq<Op>) {
    forall n :: 0 <= n < |ops| ==> !ops[n].Remove?
  }

  // How many of the calls are this one.
  function Count(ops: seq<Op>, op: Op): nat {
    if ops == [] then 0 else Count(ops[..|ops| - 1], op) + if ops[|ops| - 1] == op then 1 else 0
  }

  // Failures in a row: a success ends them, and so does a mark by the checker, but not a
  // re-registration.
  function InARow(ops: seq<Op>, a: string, start: int): int {
    if ops == [] then start
    else
      var op, before := ops[|ops| - 1], ops[..|ops| - 1];
      if op == RecordSuccess(a) || op == MarkHealthy(a) then 0
      else InARow(before, a, start) + if op == RecordFailure(a) then 1 else 0
  }

  // The last registration at the address, if any.
  function Registered(ops: seq<Op>, a: string, start: Target): Target {
    if ops == [] then start
    else if ops[|ops| - 1].Add? && At(ops[|ops| - 1], a) then ops[|ops| - 1].target
    else Registered(ops[..|ops| - 1], a, start)
  }

  // The calls that say whether a target is in rotation: marks and registrations.
  predicate Decides(op: Op, a: string) {
    At(op, a) && (op.MarkHealthy? || op.MarkUnhealthy? || op.Add?)
  }

  function LastSaid(ops: seq<Op>, a: string, start: bool): bool {
    if ops == [] then start
    else
      var op := ops[|ops| - 1];
      if !Decides(op, a) then LastSaid(ops[..|ops| - 1], a, start)
      else op.MarkHealthy? || (op.Add? && op.target.healthy)
  }

  // Call k ejected the target: at least its third failure in a row, while several targets were
  // healthy; and nothing has put it back since.
  ghost predicate EjectedAt(ts: seq<Target>, ops: seq<Op>, a: string, start: int, k: nat) {
    && k < |ops| && ops[k] == RecordFailure(a)
    && InARow(ops[..k + 1], a, start) >= 3
    && HealthyCount(Run(ts, ops[..k])) > 1
    && (forall n :: k < n < |ops| ==> !Decides(ops[n], a))
  }

  ghost predicate Ejected(ts: seq<Target>, ops: seq<Op>, a: string, start: int) {
    exists k :: EjectedAt(ts, ops, a, start, k)
  }

  lemma EjectedNext(ts: seq<Target>, ops: seq<Op>, op: Op, a: string, start: int)
    ensures Ejected(ts, ops + [op], a, start) <==>
              || (Ejected(ts, ops, a, start) && !Decides(op, a))
              || (op == RecordFailure(a) && InARow(ops + [op], a, start) >= 3 && HealthyCount(Run(ts, ops)) > 1)
  {
    hide InARow;
    hide Run;
    hide HealthyCount;
    var all, n := ops + [op], |ops|;
    assert all[..n] == ops && all[..n + 1] == all;
    forall k | 0 <= k < n
      ensures EjectedAt(ts, all, a, start, k) <==> EjectedAt(ts, ops, a, start, k) && !Decides(op, a)
    {
      assert all[..k] == ops[..k] && all[..k + 1] == ops[..k + 1];
      assert all[n] == op && forall m :: 0 <= m < n ==> all[m] == ops[m];
    }
    assert EjectedAt(ts, all, a, start, n) <==>
             op == RecordFailure(a) && InARow(all, a, start) >= 3 && HealthyCount(Run(ts, ops)) > 1;
    hide EjectedAt;
    if Ejected(ts, all, a, start) {
      var k :| EjectedAt(ts, all, a, start, k);
      EjectedBelow(ts, all, a, start, k);
    }
    if Ejected(ts, ops, a, start) {
      var k :| EjectedAt(ts, ops, a, start, k);
      EjectedBelow(ts, ops, a, start, k);
    }
  }

  lemma EjectedBelow(ts: seq<Target>, ops: seq<Op>, a: string, start: int, k: nat)
    requires EjectedAt(ts, ops, a, start, k)
    ensures k < |ops|
  {
  }

  // One call on one target.
  lemma TouchedAt(us: seq<Target>, i: nat, op: Op)
    requires Distinct(us) && i < |us| && !op.Remove?
    ensures var vs := Step(us, op);
            && Distinct(vs) && i < |vs|
            && vs[i] == if At(op, us[i].address) then Touch(us[i], op, HealthyCount(us) > 1) else us[i]
  {
    StepKeepsDistinct(us, op);
    hide HealthyCount;
  }

  // The i-th target after any calls but removals. Its statistics count the calls, and its
  // container and weight are those of the last registration ...
  ghost predicate Counted(ops: seq<Op>, t: Target, u: Target) {
    var a := t.address;
    && u.address == a
    && u.containerID == Registered(ops, a, t).containerID && u.weight == Registered(ops, a, t).weight
    && u.requests == t.requests + Count(ops, RecordRequest(a))
    && u.activeConns == t.activeConns + Count(ops, RecordRequest(a)) - Count(ops, CompleteRequest(a))
    && u.failures == t.failures + Count(ops, RecordFailure(a))
    && u.consecFail == InARow(ops, a, t.consecFail)
  }

  // ... and it is in rotation exactly if the last mark or registration put it there and no
  // failure has ejected it since.
  ghost predicate Books(ts: seq<Target>, ops: seq<Op>, t: Target, u: Target) {
    && Counted(ops, t, u)
    && (u.healthy <==> LastSaid(ops, t.address, t.healthy) && !Ejected(ts, ops, t.address, t.consecFail))
  }

  lemma CountedNext(ops: seq<Op>, op: Op, t: Target, u: Target, many: bool)
    requires Counted(ops, t, u) && !op.Remove?
    ensures Counted(ops + [op], t, if At(op, t.address) then Touch(u, op, many) else u)
  {
    assert (ops + [op])[..|ops|] == ops;
  }

  lemma BooksNext(ts: seq<Target>, ops: seq<Op>, op: Op, t: Target, u: Target, many: bool)
    requires Books(ts, ops, t, u) && !op.Remove? && many == (HealthyCount(Run(ts, ops)) > 1)
    ensures Books(ts, ops + [op], t, if At(op, t.address) then Touch(u, op, many) else u)
  {
    hide Ejected;
    hide Run;
    hide HealthyCount;
    hide Count;
    hide Registered;
    assert (ops + [op])[..|ops|] == ops;
    CountedNext(ops, op, t, u, many);
    EjectedNext(ts, ops, op, t.address, t.consecFail);
  }

  lemma {:induction false} TargetHistory(ts: seq<Target>, ops: seq<Op>, i: nat)
    requires Distinct(ts) && i < |ts| && NoneRemoved(ops)
    ensures var us := Run(ts, ops);
            Distinct(us) && i < |us| && Books(ts, ops, ts[i], us[i])
  {
    if ops == [] {
    } else {
      var op, before := ops[|ops| - 1], ops[..|ops| - 1];
      TargetHistory(ts, before, i);
      var us := Run(ts, before);
      hide Books;
      assert us[i].address == ts[i].address by { SameAddress(ts, before, ts[i], us[i]); }
      TouchedAt(us, i, op);
      assert before + [op] == ops;
      hide Step;
      hide Touch;
      hide Distinct;
      hide HealthyCount;
      BooksNext(ts, before, op, ts[i], us[i], HealthyCount(us) > 1);
    }
  }

  lemma SameAddress(ts: seq<Target>, ops: seq<Op>, t: Target, u: Target)
    requires Books(ts, ops, t, u)
    ensures u.address == t.address
  {
  }

  // An ejected target that is registered again is in rotation with its failures still counted:
  // the next one ejects it again.
  lemma ReadmittedOnProbation(us: seq<Target>, i: nat, n: Target)
    requires Distinct(us) && i < |us| && us[i].consecFail >= 2 && n.address == us[i].address && n.healthy
    ensures var vs := Step(us, Add(n));
            && vs[i].healthy
            && (HealthyCount(vs) > 1 ==> !Step(vs, RecordFailure(n.address))[i].healthy)
  {
    TouchedAt(us, i, Add(n));
    TouchedAt(Step(us, Add(n)), i, RecordFailure(n.address));
    hide HealthyCount;
  }
}
