// internal/router/router.go with internal/router/backend.go: the statistics of a pool
// under any interleaving of requests, container changes and health changes.
module Traffic {
  import opened Targets

  // How far one attempt of a request has come.
  datatype Phase =
    | Chosen(address: string)
    | InFlight(address: string)
    | Ended(address: string, ok: bool)

  // `successes` counts the successful attempts at each address since it joined the pool.
  datatype System = System(pool: seq<Target>, attempts: map<nat, Phase>, successes: map<string, nat>)

  datatype Move =
    | Choose(id: nat, address: string)
    | Abandon(id: nat)
    | Begin(id: nat)
    | End(id: nat, ok: bool)
    | Account(id: nat)
    | Change(op: Op)

  function Succeeded(s: System, a: string): nat {
    if a in s.successes then s.successes[a] else 0
  }

  predicate Serves(pool: seq<Target>, a: string) {
    exists i :: 0 <= i < |pool| && pool[i].address == a
  }

  // The counts of addresses that are still served.
  function Surviving(successes: map<string, nat>, pool: seq<Target>): map<string, nat> {
    map a | a in successes && Serves(pool, a) :: successes[a]
  }

  // No attempt at the address is in flight, or finished and not yet recorded.
  predicate Quiet(s: System, a: string) {
    Live(s.attempts, a) == {} && Unaccounted(s.attempts, a) == {}
  }

  predicate EmptyBooks(t: Target) {
    t.requests == 0 && t.failures == 0 && t.activeConns == 0 && t.consecFail == 0
  }

  // A container change or health change. Containers may stop at any time, whatever attempts
  // are under way; an address that is not served may only join while it is quiet.
  predicate Allowed(s: System, op: Op) {
    match op
    case Add(t) => EmptyBooks(t) && (Serves(s.pool, t.address) || Quiet(s, t.address))
    case Remove(_) => true
    case MarkHealthy(_) => true
    case MarkUnhealthy(_) => true
    case _ => false
  }

  function Changed(s: System, op: Op): System {
    var pool := Targets.Step(s.pool, op);
    s.(pool := pool, successes := Surviving(s.successes, pool))
  }

  predicate Enabled(s: System, m: Move) {
    match m
    case Choose(id, a) =>
      id !in s.attempts && exists i :: 0 <= i < |s.pool| && s.pool[i].address == a && s.pool[i].healthy
    case Abandon(id) => id in s.attempts && s.attempts[id].Chosen?
    case Begin(id) => id in s.attempts && s.attempts[id].Chosen?
    case End(id, _) => id in s.attempts && s.attempts[id].InFlight?
    case Account(id) => id in s.attempts && s.attempts[id].Ended?
    case Change(op) => Allowed(s, op)
  }

  function Next(s: System, m: Move): System
    requires Enabled(s, m)
  {
    match m
    case Choose(id, a) => s.(attempts := s.attempts[id := Chosen(a)])
    case Abandon(id) => s.(attempts := s.attempts - {id})
    case Begin(id) =>
      var a := s.attempts[id].address;
      s.(pool := Targets.Step(s.pool, RecordRequest(a)), attempts := s.attempts[id := InFlight(a)])
    case End(id, ok) =>
      var a := s.attempts[id].address;
      s.(pool := Targets.Step(s.pool, CompleteRequest(a)), attempts := s.attempts[id := Ended(a, ok)])
    case Account(id) =>
      var a := s.attempts[id].address;
      var rest := s.attempts - {id};
      if s.attempts[id].ok then
        System(Targets.Step(s.pool, RecordSuccess(a)), rest,
               if Serves(s.pool, a) then s.successes[a := Succeeded(s, a) + 1] else s.successes)
      else
        s.(pool := Targets.Step(s.pool, RecordFailure(a)), attempts := rest)
    case Change(op) => Changed(s, op)
  }

  // Moves that are not enabled are skipped, so this is every interleaving.
  function RunOf(moves: seq<Move>): System {
    if moves == [] then System([], map[], map[])
    else
      var s := RunOf(moves[..|moves| - 1]);
      if Enabled(s, moves[|moves| - 1]) then Next(s, moves[|moves| - 1]) else s
  }

  function Live(attempts: map<nat, Phase>, a: string): set<nat> {
    set id | id in attempts && attempts[id] == InFlight(a)
  }

  function Unaccounted(attempts: map<nat, Phase>, a: string): set<nat> {
    set id | id in attempts && attempts[id].Ended? && attempts[id].address == a
  }

  // The statistics of one target add up.
  predicate Balanced(s: System, t: Target) {
    && t.activeConns == |Live(s.attempts, t.address)|
    && t.requests == Succeeded(s, t.address) + t.failures
                     + |Live(s.attempts, t.address)| + |Unaccounted(s.attempts, t.address)|
  }

  ghost predicate Inv(s: System) {
    && Distinct(s.pool)
    && (forall i :: 0 <= i < |s.pool| ==> Balanced(s, s.pool[i]))
    && (forall a :: a in s.successes ==> Serves(s.pool, a))
  }

  // How the two counts move when one attempt is set, or forgotten.

  function One(b: bool): nat {
    if b then 1 else 0
  }

  lemma Forget(m: map<nat, Phase>, id: nat, a: string)
    requires id in m
    ensures |Live(m, a)| == |Live(m - {id}, a)| + One(m[id] == InFlight(a))
    ensures |Unaccounted(m, a)| == |Unaccounted(m - {id}, a)| + One(m[id].Ended? && m[id].address == a)
  {
    assert Live(m - {id}, a) == Live(m, a) - {id};
    assert Unaccounted(m - {id}, a) == Unaccounted(m, a) - {id};
  }

  lemma Set(m: map<nat, Phase>, id: nat, p: Phase, a: string)
    requires id in m
    ensures |Live(m[id := p], a)| + One(m[id] == InFlight(a)) == |Live(m, a)| + One(p == InFlight(a))
    ensures |Unaccounted(m[id := p], a)| + One(m[id].Ended? && m[id].address == a)
         == |Unaccounted(m, a)| + One(p.Ended? && p.address == a)
  {
    Forget(m, id, a);
    Forget(m[id := p], id, a);
    assert m[id := p] - {id} == m - {id};
  }

  lemma Insert(m: map<nat, Phase>, id: nat, a: string, b: string)
    requires id !in m
    ensures Live(m[id := Chosen(b)], a) == Live(m, a)
    ensures Unaccounted(m[id := Chosen(b)], a) == Unaccounted(m, a)
  {
  }

  lemma Discard(m: map<nat, Phase>, id: nat, a: string)
    requires id in m && m[id].Chosen?
    ensures Live(m - {id}, a) == Live(m, a)
    ensures Unaccounted(m - {id}, a) == Unaccounted(m, a)
  {
  }

  // Steps that touch one target keep every address.
  lemma TouchKeepsServing(pool: seq<Target>, op: Op)
    requires !op.Remove? && !op.Add? && Distinct(pool)
    ensures var after := Targets.Step(pool, op);
            && Distinct(after) && |after| == |pool|
            && (forall i :: 0 <= i < |pool| ==>
                  after[i] == if pool[i].address == op.address then Touch(pool[i], op, HealthyCount(pool) > 1)
                              else pool[i])
            && (forall a :: Serves(after, a) <==> Serves(pool, a))
  {
    StepKeepsDistinct(pool, op);
    SameAddresses(pool, Targets.Step(pool, op));
  }

  lemma ServesAll(pool: seq<Target>)
    ensures forall i :: 0 <= i < |pool| ==> Serves(pool, pool[i].address)
  {
  }

  lemma SameAddresses(pool: seq<Target>, after: seq<Target>)
    requires |pool| == |after| && forall i :: 0 <= i < |pool| ==> pool[i].address == after[i].address
    ensures forall a :: Serves(after, a) <==> Serves(pool, a)
  {
    forall a ensures Serves(after, a) <==> Serves(pool, a) {
      if i :| 0 <= i < |pool| && pool[i].address == a {
        assert after[i].address == a;
      }
    }
  }

  // The pool method a move calls.
  function OpOf(s: System, m: Move): Op
    requires Enabled(s, m) && (m.Begin? || m.End? || m.Account?)
  {
    var a := s.attempts[m.id].address;
    match m
    case Begin(_) => RecordRequest(a)
    case End(_, _) => CompleteRequest(a)
    case Account(_) => if s.attempts[m.id].ok then RecordSuccess(a) else RecordFailure(a)
  }

  // One target's books after a record call: `u` is what the call makes of it.
  lemma TargetKeeps(s: System, m: Move, t: Target, u: Target, many: bool)
    requires Enabled(s, m) && (m.Begin? || m.End? || m.Account?) && Balanced(s, t) && Serves(s.pool, t.address)
    requires u == if t.address == s.attempts[m.id].address then Touch(t, OpOf(s, m), many) else t
    ensures Balanced(Next(s, m), u)
  {
    hide Targets.Step;
    hide Serves;
    var a := s.attempts[m.id].address;
    match m
    case Begin(id) => Set(s.attempts, id, InFlight(a), t.address);
    case End(id, ok) => Set(s.attempts, id, Ended(a, ok), t.address);
    case Account(id) => Forget(s.attempts, id, t.address);
  }

  // The record calls of a request keep the books.
  lemma RequestKeeps(s: System, m: Move)
    requires Inv(s) && Enabled(s, m) && (m.Begin? || m.End? || m.Account?)
    ensures Inv(Next(s, m))
  {
    hide Targets.Step;
    hide Touch;
    hide Balanced;
    hide Serves;
    hide Distinct;
    var t, op := Next(s, m), OpOf(s, m);
    assert t.pool == Targets.Step(s.pool, op);
    TouchKeepsServing(s.pool, op);
    ServesAll(s.pool);
    forall i | 0 <= i < |t.pool| ensures Balanced(t, t.pool[i]) {
      TargetKeeps(s, m, s.pool[i], t.pool[i], HealthyCount(s.pool) > 1);
    }
  }

  lemma ChoiceKeeps(s: System, m: Move)
    requires Inv(s) && Enabled(s, m) && (m.Choose? || m.Abandon?)
    ensures Inv(Next(s, m))
  {
    var t := Next(s, m);
    forall i | 0 <= i < |t.pool| ensures Balanced(t, t.pool[i]) {
      assert Balanced(s, s.pool[i]);
      match m
      case Choose(id, a) => Insert(s.attempts, id, s.pool[i].address, a);
      case Abandon(id) => Discard(s.attempts, id, s.pool[i].address);
    }
  }

  // Books stay balanced when nothing they record changes.
  lemma SameBooks(s: System, t: System, a: Target, b: Target)
    requires Balanced(s, a) && s.attempts == t.attempts && Succeeded(s, a.address) == Succeeded(t, a.address)
    requires a.address == b.address && a.requests == b.requests && a.failures == b.failures
    requires a.activeConns == b.activeConns
    ensures Balanced(t, b)
  {
  }

  lemma SurvivingAll(successes: map<string, nat>, pool: seq<Target>)
    requires forall a :: a in successes ==> Serves(pool, a)
    ensures Surviving(successes, pool) == successes
  {
    hide Serves;
  }

  // What marking does to the pool: health, and nothing that is counted.
  lemma MarkedPool(pool: seq<Target>, op: Op)
    requires Distinct(pool) && (op.MarkHealthy? || op.MarkUnhealthy?)
    ensures var after := Targets.Step(pool, op);
            && Distinct(after) && |after| == |pool|
            && (forall i :: 0 <= i < |pool| ==>
                  after[i] == pool[i].(healthy := after[i].healthy, consecFail := after[i].consecFail))
            && (forall a :: Serves(after, a) <==> Serves(pool, a))
  {
    TouchKeepsServing(pool, op);
    hide Targets.Step;
    hide Serves;
    hide Distinct;
  }

  lemma MarkKeeps(s: System, op: Op)
    requires Inv(s) && (op.MarkHealthy? || op.MarkUnhealthy?)
    ensures Inv(Next(s, Change(op)))
  {
    hide Touch;
    hide Targets.Step;
    hide Serves;
    hide Distinct;
    hide Balanced;
    hide Surviving;
    var t := Next(s, Change(op));
    MarkedPool(s.pool, op);
    SurvivingAll(s.successes, t.pool);
    forall i | 0 <= i < |t.pool| ensures Balanced(t, t.pool[i]) {
      SameBooks(s, t, s.pool[i], t.pool[i]);
    }
  }

  lemma ChangeKeeps(s: System, op: Op)
    requires Inv(s) && Allowed(s, op)
    ensures Inv(Next(s, Change(op)))
  {
    match op
    case Remove(c) => RemovalKeeps(s, c);
    case Add(n) => AdditionKeeps(s, n);
    case _ => MarkKeeps(s, op);
  }

  lemma ServesConcat(x: seq<Target>, y: seq<Target>, a: string)
    ensures Serves(x + y, a) <==> Serves(x, a) || Serves(y, a)
  {
    var z := x + y;
    if i :| 0 <= i < |x| && x[i].address == a {
      assert z[i].address == a;
    }
    if i :| 0 <= i < |y| && y[i].address == a {
      assert z[|x| + i].address == a;
    }
  }

  // Dropping the k-th target drops its address and no other.
  lemma DropServes(pool: seq<Target>, k: nat, a: string)
    requires Distinct(pool) && k < |pool|
    ensures Serves(pool[..k] + pool[k + 1..], a) <==> Serves(pool, a) && pool[k].address != a
  {
    assert pool == pool[..k] + ([pool[k]] + pool[k + 1..]);
    ServesConcat(pool[..k], pool[k + 1..], a);
    ServesConcat(pool[..k], [pool[k]] + pool[k + 1..], a);
    ServesConcat([pool[k]], pool[k + 1..], a);
    assert Serves([pool[k]], a) <==> pool[k].address == a by {
      assert [pool[k]][0] == pool[k];
    }
  }

  lemma SurvivingServed(s: System, pool: seq<Target>, a: string)
    ensures Serves(pool, a) ==> Succeeded(s.(successes := Surviving(s.successes, pool)), a) == Succeeded(s, a)
    ensures forall b :: b in Surviving(s.successes, pool) ==> Serves(pool, b)
  {
  }

  // A pool without its k-th target.
  lemma DroppedPool(pool: seq<Target>, k: nat)
    requires Distinct(pool) && k < |pool|
    ensures var after := pool[..k] + pool[k + 1..];
            && (forall i :: 0 <= i < |after| ==> after[i] == pool[if i < k then i else i + 1])
            && (forall i :: 0 <= i < |after| ==> Serves(after, after[i].address))
            && (forall a :: Serves(after, a) <==> Serves(pool, a) && pool[k].address != a)
  {
    var after := pool[..k] + pool[k + 1..];
    forall a { DropServes(pool, k, a); }
    assert forall i :: 0 <= i < |after| ==> Serves(after, after[i].address);
    hide Serves;
  }

  // What removing a container does to the pool: at most one target goes.
  lemma RemovedPool(pool: seq<Target>, c: string)
    requires Distinct(pool)
    ensures var after, k := Targets.Step(pool, Remove(c)), ContainerIndex(pool, c);
            && |after| == (if k < |pool| then |pool| - 1 else |pool|)
            && (forall i :: 0 <= i < |after| ==> after[i] == pool[if i < k then i else i + 1])
            && (forall i :: 0 <= i < |after| ==> Serves(after, after[i].address))
            && (forall a :: Serves(after, a) <==> Serves(pool, a) && !(k < |pool| && pool[k].address == a))
  {
    var after, k := Targets.Step(pool, Remove(c)), ContainerIndex(pool, c);
    if k == |pool| {
      assert after == pool;
      assert forall i :: 0 <= i < |pool| ==> Serves(pool, pool[i].address);
    } else {
      DroppedPool(pool, k);
    }
    hide Serves;
    hide Distinct;
  }

  lemma RemovalKeeps(s: System, c: string)
    requires Inv(s) && Allowed(s, Remove(c))
    ensures Inv(Next(s, Change(Remove(c))))
  {
    hide Serves;
    hide Distinct;
    hide Balanced;
    hide Surviving;
    hide Targets.Step;
    var t, k := Next(s, Change(Remove(c))), ContainerIndex(s.pool, c);
    StepKeepsDistinct(s.pool, Remove(c));
    RemovedPool(s.pool, c);
    SurvivingServed(s, t.pool, "");
    forall i | 0 <= i < |t.pool| ensures Balanced(t, t.pool[i]) {
      var j := if i < k then i else i + 1;
      SurvivingServed(s, t.pool, s.pool[j].address);
      SameBooks(s, t, s.pool[j], t.pool[i]);
    }
  }

  // An added target takes over its address or comes last, with empty books.
  lemma AdditionServes(pool: seq<Target>, n: Target)
    requires Distinct(pool)
    ensures var after := Targets.Step(pool, Add(n));
            && |pool| <= |after| <= |pool| + 1
            && (forall i :: 0 <= i < |pool| ==> after[i] == pool[i].(
                  containerID := after[i].containerID, weight := after[i].weight, healthy := after[i].healthy))
            && (|after| > |pool| ==> after[|pool|] == n && !Serves(pool, n.address))
            && (forall a :: Serves(pool, a) ==> Serves(after, a))
  {
    var after := Targets.Step(pool, Add(n));
    forall a | Serves(pool, a) ensures Serves(after, a) {
      var i :| 0 <= i < |pool| && pool[i].address == a;
      assert after[i].address == a;
    }
  }

  lemma AdditionKeeps(s: System, n: Target)
    requires Inv(s) && Allowed(s, Add(n))
    ensures Inv(Next(s, Change(Add(n))))
  {
    hide Distinct;
    hide Targets.Step;
    hide Serves;
    hide Balanced;
    hide Surviving;
    var t := Next(s, Change(Add(n)));
    StepKeepsDistinct(s.pool, Add(n));
    AdditionServes(s.pool, n);
    SurvivingAll(s.successes, t.pool);
    forall i | 0 <= i < |t.pool| ensures Balanced(t, t.pool[i]) {
      if i < |s.pool| {
        SameBooks(s, t, s.pool[i], t.pool[i]);
      } else {
        NothingBooked(t, n);
      }
    }
  }

  // Nothing is recorded, and nothing under way, at an address that has just joined.
  lemma NothingBooked(t: System, n: Target)
    requires EmptyBooks(n) && n.address !in t.successes && Quiet(t, n.address)
    ensures Balanced(t, n)
  {
  }

  // Adding a target with empty books keeps the books exactly when its address is served
  // already or quiet. Removing one always does (RemovalKeeps).
  lemma AdditionKeepsExactlyWhen(s: System, n: Target)
    requires Inv(s) && EmptyBooks(n)
    ensures Inv(Changed(s, Add(n))) <==> Serves(s.pool, n.address) || Quiet(s, n.address)
  {
    if Serves(s.pool, n.address) || Quiet(s, n.address) {
      AdditionKeeps(s, n);
    } else {
      hide Surviving;
      var t := Changed(s, Add(n));
      AdditionServes(s.pool, n);
      AddedLast(s.pool, n);
      hide Serves;
      hide Targets.Step;
      assert !Balanced(t, t.pool[|s.pool|]);
    }
  }

  lemma AddedLast(pool: seq<Target>, n: Target)
    requires !Serves(pool, n.address)
    ensures Targets.Step(pool, Add(n)) == pool + [n]
  {
  }

  lemma {:induction false} Conserved(moves: seq<Move>)
    ensures Inv(RunOf(moves))
  {
    if moves == [] {
    } else {
      Conserved(moves[..|moves| - 1]);
      var s, m := RunOf(moves[..|moves| - 1]), moves[|moves| - 1];
      if Enabled(s, m) {
        match m
        case Change(op) => ChangeKeeps(s, op);
        case Choose(_, _) => ChoiceKeeps(s, m);
        case Abandon(_) => ChoiceKeeps(s, m);
        case _ => RequestKeeps(s, m);
      }
    }
  }

  // In every interleaving activeConns counts the attempts in flight, and once nothing is
  // in progress every request is accounted for as one success or one failure.
  lemma StatisticsAddUp(moves: seq<Move>, i: nat)
    requires i < |RunOf(moves).pool|
    ensures var s := RunOf(moves);
            var t := s.pool[i];
            && t.activeConns == |Live(s.attempts, t.address)|
            && (s.attempts == map[] ==> t.activeConns == 0 && t.requests == Succeeded(s, t.address) + t.failures)
  {
    Conserved(moves);
    assert Balanced(RunOf(moves), RunOf(moves).pool[i]);
  }

  // A target that leaves its siblings and returns during an attempt ends with a negative count.
  lemma ReturnInFlightMiscounts(t: Target, siblings: seq<Target>)
    requires t.requests == t.failures == t.activeConns == t.consecFail == 0
    requires siblings != [] && !Serves(siblings, t.address)
    ensures var begun := Targets.Step([t] + siblings, RecordRequest(t.address));
            var away := Targets.Step(begun, Remove(t.containerID));
            var back := Targets.Step(away, Add(t));
            && away == siblings
            && Targets.Step(back, CompleteRequest(t.address)) == siblings + [t.(activeConns := -1)]
  {
    Departed(t, siblings);
    AddedLast(siblings, t);
    Completed(siblings, t);
    hide Targets.Step;
    hide Serves;
  }

  lemma Departed(t: Target, siblings: seq<Target>)
    ensures var begun := Targets.Step([t] + siblings, RecordRequest(t.address));
            Targets.Step(begun, Remove(t.containerID)) == siblings
  {
    hide HealthyCount;
    var u := t.(requests := t.requests + 1, activeConns := t.activeConns + 1);
    assert Targets.Step([t] + siblings, RecordRequest(t.address)) == [u] + siblings;
  }

  lemma Completed(siblings: seq<Target>, t: Target)
    requires !Serves(siblings, t.address)
    ensures Targets.Step(siblings + [t], CompleteRequest(t.address)) == siblings + [t.(activeConns := t.activeConns - 1)]
  {
    hide HealthyCount;
    assert (siblings + [t])[|siblings|] == t;
  }
}
