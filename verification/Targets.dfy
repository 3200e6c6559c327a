// internal/router/backend.go: what the pool's methods do to the list of targets.
module Targets {
  const PASSIVE_EJECT_THRESHOLD := 3

  // The value of a BackendTarget.
  datatype Target = Target(
    address: string,
    containerID: string,
    weight: int,
    healthy: bool,
    requests: int,
    failures: int,
    activeConns: int,
    consecFail: int)

  // One locked method call of BackendPool.
  datatype Op =
    | Add(target: Target)
    | Remove(containerID: string)
    | MarkHealthy(address: string)
    | MarkUnhealthy(address: string)
    | RecordRequest(address: string)
    | CompleteRequest(address: string)
    | RecordSuccess(address: string)
    | RecordFailure(address: string)

  // Index of the first target at an address (or of a container), or |ts|.
  function AddressIndex(ts: seq<Target>, a: string): (i: nat)
    ensures i <= |ts|
    ensures i < |ts| ==> ts[i].address == a
    ensures forall j :: 0 <= j < i ==> ts[j].address != a
  {
    if ts == [] || ts[0].address == a then 0 else 1 + AddressIndex(ts[1..], a)
  }

  function ContainerIndex(ts: seq<Target>, c: string): (i: nat)
    ensures i <= |ts|
    ensures i < |ts| ==> ts[i].containerID == c
    ensures forall j :: 0 <= j < i ==> ts[j].containerID != c
  {
    if ts == [] || ts[0].containerID == c then 0 else 1 + ContainerIndex(ts[1..], c)
  }

  function HealthyCount(ts: seq<Target>): nat {
    if ts == [] then 0 else (if ts[0].healthy then 1 else 0) + HealthyCount(ts[1..])
  }

  // The targets in rotation, in pool order.
  function Rotation(ts: seq<Target>): seq<Target> {
    if ts == [] then []
    else Rotation(ts[..|ts| - 1]) + (if ts[|ts| - 1].healthy then [ts[|ts| - 1]] else [])
  }

  // What one call does to the target it finds; `many` says whether others are healthy too.
  function Touch(t: Target, op: Op, many: bool): Target
    requires !op.Remove?
  {
    match op
    case Add(n) => t.(containerID := n.containerID, weight := n.weight, healthy := n.healthy)
    case MarkHealthy(_) => t.(healthy := true, consecFail := 0)
    case MarkUnhealthy(_) => t.(healthy := false)
    case RecordRequest(_) => t.(requests := t.requests + 1, activeConns := t.activeConns + 1)
    case CompleteRequest(_) => t.(activeConns := t.activeConns - 1)
    case RecordSuccess(_) => t.(consecFail := 0)
    case RecordFailure(_) =>
      var fails := t.consecFail + 1;
      t.(failures := t.failures + 1, consecFail := fails,
         healthy := t.healthy && !(fails >= PASSIVE_EJECT_THRESHOLD && many))
  }

  function OpAddress(op: Op): string
    requires !op.Remove?
  {
    if op.Add? then op.target.address else op.address
  }

  function Step(ts: seq<Target>, op: Op): seq<Target> {
    if op.Remove? then
      var i := ContainerIndex(ts, op.containerID);
      if i < |ts| then ts[..i] + ts[i + 1..] else ts
    else
      var i := AddressIndex(ts, OpAddress(op));
      if i < |ts| then ts[i := Touch(ts[i], op, HealthyCount(ts) > 1)]
      else if op.Add? then ts + [op.target]
      else ts
  }

  function Run(ts: seq<Target>, ops: seq<Op>): seq<Target> {
    if ops == [] then ts else Step(Run(ts, ops[..|ops| - 1]), ops[|ops| - 1])
  }

  ghost predicate Distinct(ts: seq<Target>) {
    forall i, j :: 0 <= i < j < |ts| ==> ts[i].address != ts[j].address
  }

  lemma StepKeepsDistinct(ts: seq<Target>, op: Op)
    requires Distinct(ts)
    ensures Distinct(Step(ts, op))
  {
  }

  lemma {:induction false} RunKeepsDistinct(ts: seq<Target>, ops: seq<Op>)
    requires Distinct(ts)
    ensures Distinct(Run(ts, ops))
  {
    if ops == [] {
    } else {
      RunKeepsDistinct(ts, ops[..|ops| - 1]);
      StepKeepsDistinct(Run(ts, ops[..|ops| - 1]), ops[|ops| - 1]);
    }
  }

  // Counting healthy targets.

  lemma {:induction false} HealthySplit(a: seq<Target>, b: seq<Target>)
    ensures HealthyCount(a + b) == HealthyCount(a) + HealthyCount(b)
  {
    if a == [] {
      assert a + b == b;
    } else {
      assert (a + b)[1..] == a[1..] + b;
      HealthySplit(a[1..], b);
    }
  }

  lemma HealthyUpdate(ts: seq<Target>, i: nat, t: Target)
    requires i < |ts|
    ensures HealthyCount(ts[i := t])
         == HealthyCount(ts) - (if ts[i].healthy then 1 else 0) + (if t.healthy then 1 else 0)
  {
    assert ts == ts[..i] + ([ts[i]] + ts[i + 1..]);
    assert ts[i := t] == ts[..i] + ([t] + ts[i + 1..]);
    HealthySplit(ts[..i], [ts[i]] + ts[i + 1..]);
    HealthySplit(ts[..i], [t] + ts[i + 1..]);
    HealthySplit([ts[i]], ts[i + 1..]);
    HealthySplit([t], ts[i + 1..]);
  }

  lemma HealthyDrop(ts: seq<Target>, i: nat)
    requires i < |ts|
    ensures HealthyCount(ts[..i] + ts[i + 1..]) == HealthyCount(ts) - (if ts[i].healthy then 1 else 0)
  {
    assert ts == ts[..i] + ([ts[i]] + ts[i + 1..]);
    HealthySplit(ts[..i], [ts[i]] + ts[i + 1..]);
    HealthySplit(ts[..i], ts[i + 1..]);
    HealthySplit([ts[i]], ts[i + 1..]);
  }

  // Two healthy targets count as two.
  lemma HealthyPair(ts: seq<Target>, i: nat, j: nat)
    requires i < j < |ts| && ts[i].healthy && ts[j].healthy
    ensures HealthyCount(ts) >= 2
  {
    HealthyUpdate(ts, i, ts[i].(healthy := false));
    HealthyUpdate(ts[i := ts[i].(healthy := false)], j, ts[j].(healthy := false));
  }

  lemma HealthyOne(ts: seq<Target>, i: nat)
    requires i < |ts| && ts[i].healthy
    ensures HealthyCount(ts) >= 1
  {
    HealthyUpdate(ts, i, ts[i].(healthy := false));
  }

  // The one way the rotation empties: the last healthy target is marked unhealthy by
  // the checker, removed, or re-added as unhealthy. A recorded failure never does it.
  lemma RotationEmptiesExactlyWhen(ts: seq<Target>, op: Op)
    requires HealthyCount(ts) > 0
    ensures HealthyCount(Step(ts, op)) == 0 <==>
              && HealthyCount(ts) == 1
              && var i := if op.Remove? then ContainerIndex(ts, op.containerID)
                          else AddressIndex(ts, OpAddress(op));
                 i < |ts| && ts[i].healthy
                 && (op.Remove? || op.MarkUnhealthy? || (op.Add? && !op.target.healthy))
  {
    var i := if op.Remove? then ContainerIndex(ts, op.containerID) else AddressIndex(ts, OpAddress(op));
    if i == |ts| {
      if op.Add? {
        HealthySplit(ts, [op.target]);
      }
    } else if op.Remove? {
      HealthyDrop(ts, i);
    } else {
      HealthyUpdate(ts, i, Touch(ts[i], op, HealthyCount(ts) > 1));
      if ts[i].healthy {
        HealthyOne(ts, i);
      }
    }
  }

  // Passive ejection over whole runs of proxied requests.

  predicate Passive(op: Op) {
    op.RecordRequest? || op.CompleteRequest? || op.RecordSuccess? || op.RecordFailure?
  }

  ghost predicate AllPassive(ops: seq<Op>) {
    forall i :: 0 <= i < |ops| ==> Passive(ops[i])
  }

  // Failures recorded for an address since its last recorded success.
  function TrailingFailures(ops: seq<Op>, a: string): nat {
    if ops == [] then 0
    else
      var op, before := ops[|ops| - 1], ops[..|ops| - 1];
      if op == RecordSuccess(a) then 0
      else if op == RecordFailure(a) then 1 + TrailingFailures(before, a)
      else TrailingFailures(before, a)
  }

  ghost predicate Fresh(ts: seq<Target>) {
    Distinct(ts) && forall i :: 0 <= i < |ts| ==> ts[i].consecFail == 0
  }

  // The target t after the recorded calls ops, when `count` targets are healthy: it has not
  // entered the rotation, consecFail is its trailing failure count, and if it is healthy and
  // has reached the threshold it is the only one.
  predicate KeptAt(t: Target, ops: seq<Op>, u: Target, count: nat) {
    && u.address == t.address
    && (u.healthy ==> t.healthy)
    && u.consecFail == TrailingFailures(ops, t.address)
    && (u.healthy && u.consecFail >= PASSIVE_EJECT_THRESHOLD ==> count == 1)
  }

  ghost predicate PassivelyKept(ts: seq<Target>, ops: seq<Op>, us: seq<Target>) {
    && |us| == |ts| && Distinct(us)
    && (HealthyCount(ts) > 0 ==> HealthyCount(us) > 0)
    && (forall i :: 0 <= i < |ts| ==> KeptAt(ts[i], ops, us[i], HealthyCount(us)))
  }

  // The target a recorded call is about.
  lemma KeptTouched(t: Target, ops: seq<Op>, u: Target, count: nat, op: Op, after: nat)
    requires Passive(op) && op.address == u.address && KeptAt(t, ops, u, count) && (u.healthy ==> count >= 1)
    requires var v := Touch(u, op, count > 1); after == if u.healthy && !v.healthy then count - 1 else count
    ensures KeptAt(t, ops + [op], Touch(u, op, count > 1), after)
    ensures count > 0 ==> after > 0
  {
    assert (ops + [op])[..|ops|] == ops;
  }

  // Any other target.
  lemma KeptUntouched(t: Target, ops: seq<Op>, u: Target, count: nat, op: Op, after: nat)
    requires Passive(op) && op.address != u.address && KeptAt(t, ops, u, count)
    requires after == count || count > 1
    ensures KeptAt(t, ops + [op], u, after)
  {
    assert (ops + [op])[..|ops|] == ops;
  }

  lemma PassiveTouch(ts: seq<Target>, ops: seq<Op>, us: seq<Target>, op: Op, i: nat)
    requires PassivelyKept(ts, ops, us) && Passive(op)
    requires i < |us| && us[i].address == op.address
    ensures PassivelyKept(ts, ops + [op], us[i := Touch(us[i], op, HealthyCount(us) > 1)])
  {
    var count := HealthyCount(us);
    var v := Touch(us[i], op, count > 1);
    HealthyUpdate(us, i, v);
    if us[i].healthy {
      HealthyOne(us, i);
    }
    hide HealthyCount;
    hide KeptAt;
    var after := HealthyCount(us[i := v]);
    KeptTouched(ts[i], ops, us[i], count, op, after);
    hide Touch;
    forall k | 0 <= k < |ts| && k != i ensures KeptAt(ts[k], ops + [op], us[k], after) {
      KeptUntouched(ts[k], ops, us[k], count, op, after);
    }
  }

  lemma PassiveStep(ts: seq<Target>, ops: seq<Op>, us: seq<Target>, op: Op)
    requires PassivelyKept(ts, ops, us) && Passive(op)
    ensures PassivelyKept(ts, ops + [op], Step(us, op))
  {
    hide HealthyCount;
    hide KeptAt;
    var i := AddressIndex(us, OpAddress(op));
    if i < |us| {
      hide Distinct;
      PassiveTouch(ts, ops, us, op, i);
    } else {
      forall k | 0 <= k < |ts| ensures KeptAt(ts[k], ops + [op], us[k], HealthyCount(us)) {
        KeptUntouched(ts[k], ops, us[k], HealthyCount(us), op, HealthyCount(us));
      }
    }
  }

  // What every passive run keeps.
  lemma {:induction false} PassiveRun(ts: seq<Target>, ops: seq<Op>)
    requires Fresh(ts) && AllPassive(ops)
    ensures PassivelyKept(ts, ops, Run(ts, ops))
  {
    if ops == [] {
    } else {
      var op, before := ops[|ops| - 1], ops[..|ops| - 1];
      PassiveRun(ts, before);
      PassiveStep(ts, before, Run(ts, before), op);
      assert before + [op] == ops;
    }
  }

  // A target leaves rotation only by a failure of its own that is at least the third
  // since its last success, and only while another target is healthy.
  lemma EjectionNeedsThreeFailures(ts: seq<Target>, ops: seq<Op>, op: Op, i: nat)
    requires Fresh(ts) && AllPassive(ops + [op]) && i < |ts|
    ensures |Run(ts, ops)| == |ts| == |Run(ts, ops + [op])|
    ensures Run(ts, ops)[i].healthy && !Run(ts, ops + [op])[i].healthy <==>
              && Run(ts, ops)[i].healthy
              && op == RecordFailure(ts[i].address)
              && TrailingFailures(ops + [op], ts[i].address) >= 3
              && HealthyCount(Run(ts, ops)) > 1
  {
    assert (ops + [op])[..|ops|] == ops;
    assert AllPassive(ops) by {
      forall k | 0 <= k < |ops| ensures Passive(ops[k]) {
        assert ops[k] == (ops + [op])[k];
      }
    }
    assert Passive((ops + [op])[|ops|]);
    PassiveRun(ts, ops);
    PassiveRun(ts, ops + [op]);
    hide Fresh;
    hide AllPassive;
  }

  // Removal of a container that has at most one target.

  ghost predicate AtMostOne(ts: seq<Target>, c: string) {
    forall i, j :: 0 <= i < j < |ts| ==> !(ts[i].containerID == c && ts[j].containerID == c)
  }

  function Others(ts: seq<Target>, c: string): seq<Target> {
    if ts == [] then []
    else (if ts[0].containerID == c then [] else [ts[0]]) + Others(ts[1..], c)
  }

  lemma {:induction false} NoneToDrop(ts: seq<Target>, c: string)
    requires forall i :: 0 <= i < |ts| ==> ts[i].containerID != c
    ensures Others(ts, c) == ts
  {
    if ts == [] {
    } else {
      NoneToDrop(ts[1..], c);
    }
  }

  lemma {:induction false} OthersDropsAll(ts: seq<Target>, c: string)
    ensures forall i :: 0 <= i < |Others(ts, c)| ==> Others(ts, c)[i].containerID != c
  {
    if ts == [] {
    } else {
      OthersDropsAll(ts[1..], c);
    }
  }

  // Remove, one target at a time.
  lemma RemoveHead(ts: seq<Target>, c: string)
    requires ts != []
    ensures Step(ts, Remove(c))
         == if ts[0].containerID == c then ts[1..] else [ts[0]] + Step(ts[1..], Remove(c))
  {
    hide Touch;
    hide HealthyCount;
    hide AddressIndex;
    var us := ts[1..];
    var i := ContainerIndex(us, c);
    if ts[0].containerID != c && i < |us| {
      assert ts[..i + 1] + ts[i + 2..] == [ts[0]] + (us[..i] + us[i + 1..]);
    }
  }

  lemma {:induction false} SoleTargetDropped(ts: seq<Target>, c: string)
    requires AtMostOne(ts, c)
    ensures Step(ts, Remove(c)) == Others(ts, c)
  {
    if ts == [] {
    } else {
      RemoveHead(ts, c);
      hide Step;
      if ts[0].containerID == c {
        NoneToDrop(ts[1..], c);
      } else {
        SoleTargetDropped(ts[1..], c);
      }
    }
  }

  lemma DroppedWasSole(ts: seq<Target>, c: string)
    requires Step(ts, Remove(c)) == Others(ts, c)
    ensures AtMostOne(ts, c)
  {
    OthersDropsAll(ts, c);
    var i := ContainerIndex(ts, c);
    var us := Others(ts, c);
    forall k | i < k < |ts| ensures ts[k].containerID != c {
      assert us[k - 1] == ts[k];
    }
  }

  // Remove leaves no target of c and keeps all others, with their statistics, in order
  // exactly when c had at most one.
  lemma RemoveDropsContainer(ts: seq<Target>, c: string)
    ensures Step(ts, Remove(c)) == Others(ts, c) <==> AtMostOne(ts, c)
  {
    if AtMostOne(ts, c) {
      SoleTargetDropped(ts, c);
    }
    if Step(ts, Remove(c)) == Others(ts, c) {
      DroppedWasSole(ts, c);
    }
  }

  // How the rotation follows the pool.

  lemma {:induction false} RotationSplit(a: seq<Target>, b: seq<Target>)
    ensures Rotation(a + b) == Rotation(a) + Rotation(b)
  {
    if b == [] {
      assert a + b == a;
    } else {
      assert (a + b)[..|a + b| - 1] == a + b[..|b| - 1];
      RotationSplit(a, b[..|b| - 1]);
    }
  }

  lemma {:induction false} RotationCounts(ts: seq<Target>)
    ensures |Rotation(ts)| == HealthyCount(ts)
  {
    if ts == [] {
    } else {
      var n := |ts| - 1;
      RotationCounts(ts[..n]);
      assert ts == ts[..n] + [ts[n]];
      HealthySplit(ts[..n], [ts[n]]);
      assert HealthyCount([ts[n]][1..]) == 0;
    }
  }

  lemma RotationAround(ts: seq<Target>, i: nat, t: Target)
    requires i < |ts|
    ensures Rotation(ts[i := t])
         == Rotation(ts[..i]) + (if t.healthy then [t] else []) + Rotation(ts[i + 1..])
  {
    var us := ts[i := t];
    assert us == ts[..i] + ([t] + ts[i + 1..]);
    RotationSplit(ts[..i], [t] + ts[i + 1..]);
    RotationSplit([t], ts[i + 1..]);
    assert Rotation([t][..0]) == [];
  }

  // Everything in rotation is in the pool.
  lemma {:induction false} RotationWithin(ts: seq<Target>, k: nat)
    requires k < |Rotation(ts)|
    ensures exists i :: 0 <= i < |ts| && ts[i] == Rotation(ts)[k] && ts[i].healthy
  {
    var n := |ts| - 1;
    var before := Rotation(ts[..n]);
    if k < |before| {
      RotationWithin(ts[..n], k);
      var i :| 0 <= i < n && ts[..n][i] == before[k] && ts[..n][i].healthy;
      assert ts[i] == Rotation(ts)[k];
    } else {
      assert ts[n] == Rotation(ts)[k];
    }
  }

  // A healthy target's place in the rotation.
  lemma PlaceInRotation(ts: seq<Target>, i: nat)
    requires i < |ts| && ts[i].healthy
    ensures |Rotation(ts[..i])| < |Rotation(ts)| && Rotation(ts)[|Rotation(ts[..i])|] == ts[i]
  {
    RotationAround(ts, i, ts[i]);
    assert ts[i := ts[i]] == ts;
  }

  lemma {:induction false} RotationDistinct(ts: seq<Target>)
    requires Distinct(ts)
    ensures Distinct(Rotation(ts))
  {
    if ts == [] {
    } else {
      var n := |ts| - 1;
      RotationDistinct(ts[..n]);
      var before := Rotation(ts[..n]);
      forall k | 0 <= k < |before| ensures before[k].address != ts[n].address {
        RotationWithin(ts[..n], k);
      }
    }
  }
}
