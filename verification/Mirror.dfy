// internal/discovery/reconciler.go with cmd/dockrouter/main.go: the engine's calls, carried
// out by the sink, while the checker marks backends and requests are recorded. Exactly
// when the table serves the engine's containers.
module Mirror {
  import opened Options
  import opened Discovery
  import opened Hosts
  import opened Routes
  import opened Sink
  import opened TableModel
  import opened TableRuns
  import T = Targets

  function KeyFor(info: Info): string {
    RouteKey(info.config.host, info.config.path)
  }

  // What a request records of one target.
  type Tally = op: T.Op | op.RecordRequest? || op.CompleteRequest? || op.RecordSuccess? || op.RecordFailure?
    witness T.RecordRequest("")

  // What happens to the table: a call of the engine, a callback of the checker, and a
  // record call on the pool under a key.
  datatype Event = Sunk(call: SinkCall) | Marked(address: string, healthy: bool) | Recorded(key: string, tally: Tally)

  function Next(v: map<string, seq<T.Target>>, e: Event): map<string, seq<T.Target>> {
    match e
    case Sunk(AddRoute(info)) => Gain(v, KeyFor(info), [], Some(NewTarget(info)))
    case Sunk(RemoveRoute(id)) => Left(v, id)
    case Marked(a, healthy) => Everywhere(v, if healthy then T.MarkHealthy(a) else T.MarkUnhealthy(a))
    case Recorded(key, tally) => if key in v then v[key := T.Step(v[key], tally)] else v
  }

  // What the table serves after a run.
  function Pools(run: seq<Event>): map<string, seq<T.Target>> {
    if run == [] then map[] else Next(Pools(run[..|run| - 1]), run[|run| - 1])
  }

  // The engine's calls in a run.
  function Calls(run: seq<Event>): seq<SinkCall> {
    if run == [] then []
    else Calls(run[..|run| - 1]) + (if run[|run| - 1].Sunk? then [run[|run| - 1].call] else [])
  }

  // The engine's containers after a run.
  function Containers(run: seq<Event>): map<string, Info> {
    Replay(Calls(run))
  }

  lemma ContainersNext(run: seq<Event>)
    requires run != []
    ensures var m := Containers(run[..|run| - 1]);
            Containers(run) == match run[|run| - 1]
                               case Sunk(AddRoute(info)) => m[info.id := info]
                               case Sunk(RemoveRoute(id)) => m - {id}
                               case _ => m
  {
    var before := Calls(run[..|run| - 1]);
    var e := run[|run| - 1];
    if e.Sunk? {
      assert (before + [e.call])[..|before|] == before;
    } else {
      assert before + [] == before;
    }
  }

  // These are the steps the sink's methods promise.

  lemma AddRouteGains(v: map<string, seq<T.Target>>, info: Info)
    ensures v[KeyFor(info) := T.Step(Under(v, KeyFor(info)), T.Add(NewTarget(info)))]
         == Next(v, Sunk(AddRoute(info)))
  {
    hide T.Step;
  }

  lemma RemoveRouteLeaves(r0: map<string, Route>, v0: map<string, seq<T.Target>>,
                          r: map<string, Route>, v: map<string, seq<T.Target>>, id: string)
    requires DrainedRoutes(r0, v0, r, v, {}, id)
    ensures v == Next(v0, Sunk(RemoveRoute(id)))
  {
    hide T.Step;
  }

  // t stands for the container: health and statistics are the table's own business.
  predicate Is(t: T.Target, info: Info) {
    t.address == info.address && t.containerID == info.id && t.weight == info.config.weight
  }

  predicate Stands(m: map<string, Info>, key: string, t: T.Target) {
    t.containerID in m && KeyFor(m[t.containerID]) == key && Is(t, m[t.containerID])
  }

  ghost predicate PoolMirrors(m: map<string, Info>, key: string, ts: seq<T.Target>) {
    T.Distinct(ts) && forall i :: 0 <= i < |ts| ==> Stands(m, key, ts[i])
  }

  ghost predicate Holds(ts: seq<T.Target>, id: string) {
    exists i :: 0 <= i < |ts| && ts[i].containerID == id
  }

  // The table serves exactly the containers m, each as one target under its route key.
  ghost predicate Mirrored(m: map<string, Info>, v: map<string, seq<T.Target>>) {
    && (forall k :: k in v ==> v[k] != [] && PoolMirrors(m, k, v[k]))
    && (forall id :: id in m ==> KeyFor(m[id]) in v && Holds(v[KeyFor(m[id])], id))
  }

  // What AddRoute needs of the containers known: its own keeps address and route, and no
  // other has its address on its route.
  ghost predicate Fits(m: map<string, Info>, info: Info) {
    && (info.id in m ==> m[info.id].address == info.address && KeyFor(m[info.id]) == KeyFor(info))
    && (forall c :: c in m && c != info.id && KeyFor(m[c]) == KeyFor(info) ==> m[c].address != info.address)
  }

  // One pool after Add: position i is the container's, the others are as before.
  ghost predicate Added(ts: seq<T.Target>, us: seq<T.Target>, i: nat, info: Info) {
    && i <= |ts| && |us| == (if i < |ts| then |ts| else |ts| + 1)
    && (i < |ts| ==> ts[i].address == info.address)
    && (forall j :: 0 <= j < |ts| && j != i ==> ts[j].address != info.address && us[j] == ts[j])
    && Is(us[i], info)
  }

  lemma StepAdds(ts: seq<T.Target>, info: Info)
    requires T.Distinct(ts)
    ensures Added(ts, T.Step(ts, T.Add(NewTarget(info))), T.AddressIndex(ts, info.address), info)
  {
  }

  lemma PoolGains(m: map<string, Info>, ts: seq<T.Target>, us: seq<T.Target>, i: nat, info: Info)
    requires PoolMirrors(m, KeyFor(info), ts) && Added(ts, us, i, info) && Fits(m, info)
    ensures us != [] && PoolMirrors(m[info.id := info], KeyFor(info), us)
    ensures Holds(us, info.id)
    ensures forall id :: Holds(ts, id) ==> Holds(us, id)
  {
    hide KeyFor;
    forall j | 0 <= j < |us| ensures Stands(m[info.id := info], KeyFor(info), us[j]) {
      if j != i {
        assert Stands(m, KeyFor(info), ts[j]);
      }
    }
    forall id | Holds(ts, id) ensures Holds(us, id) {
      var j :| 0 <= j < |ts| && ts[j].containerID == id;
      assert Stands(m, KeyFor(info), ts[j]);
      assert us[j].containerID == id;
    }
  }

  // Any other pool holds nothing of the container.
  lemma OtherPool(m: map<string, Info>, k: string, ts: seq<T.Target>, info: Info)
    requires PoolMirrors(m, k, ts) && k != KeyFor(info) && Fits(m, info)
    ensures PoolMirrors(m[info.id := info], k, ts)
  {
    hide T.Distinct;
    hide KeyFor;
    forall i | 0 <= i < |ts| ensures Stands(m[info.id := info], k, ts[i]) {
      assert Stands(m, k, ts[i]);
    }
  }

  lemma AddMirrors(m: map<string, Info>, v: map<string, seq<T.Target>>, info: Info)
    requires Mirrored(m, v) && Fits(m, info)
    ensures Mirrored(m[info.id := info], Next(v, Sunk(AddRoute(info))))
  {
    hide T.Step;
    hide KeyFor;
    hide Fits;
    hide Holds;
    var key := KeyFor(info);
    var ts := if key in v then v[key] else [];
    var n, w := m[info.id := info], Next(v, Sunk(AddRoute(info)));
    assert PoolMirrors(m, key, ts);
    StepAdds(ts, info);
    hide Added;
    PoolGains(m, ts, w[key], T.AddressIndex(ts, info.address), info);
    forall k | k in w ensures w[k] != [] && PoolMirrors(n, k, w[k]) {
      if k != key {
        OtherPool(m, k, v[k], info);
      }
    }
  }

  // Without the fit the table mirrors no longer: the container's old target stays behind,
  // or the target at its address was another's.
  lemma MirroredFits(m: map<string, Info>, v: map<string, seq<T.Target>>, info: Info)
    requires Mirrored(m, v) && Mirrored(m[info.id := info], Next(v, Sunk(AddRoute(info))))
    ensures Fits(m, info)
  {
    hide T.Step;
    hide KeyFor;
    hide Fits;
    hide Holds;
    var key := KeyFor(info);
    var ts := if key in v then v[key] else [];
    var n, w := m[info.id := info], Next(v, Sunk(AddRoute(info)));
    StepAdds(ts, info);
    hide T.Distinct;
    var i := T.AddressIndex(ts, info.address);
    if info.id in m {
      OldPlace(m, v, w, ts, i, info);
    }
    forall c | c in m && c != info.id && KeyFor(m[c]) == key ensures m[c].address != info.address {
      assert n[c] == m[c];
      NoOther(n, w[key], i, c, info);
    }
    FitsIf(m, info);
  }

  lemma FitsIf(m: map<string, Info>, info: Info)
    requires info.id in m ==> m[info.id].address == info.address && KeyFor(m[info.id]) == KeyFor(info)
    requires forall c :: c in m && c != info.id && KeyFor(m[c]) == KeyFor(info) ==> m[c].address != info.address
    ensures Fits(m, info)
  {
  }

  lemma OldPlace(m: map<string, Info>, v: map<string, seq<T.Target>>, w: map<string, seq<T.Target>>,
                 ts: seq<T.Target>, i: nat, info: Info)
    requires Mirrored(m, v) && Mirrored(m[info.id := info], w) && info.id in m
    requires KeyFor(info) in w && w == v[KeyFor(info) := w[KeyFor(info)]]
    requires KeyFor(info) in v ==> ts == v[KeyFor(info)]
    requires Added(ts, w[KeyFor(info)], i, info)
    ensures m[info.id].address == info.address && KeyFor(m[info.id]) == KeyFor(info)
  {
    hide KeyFor;
    hide T.Distinct;
    var k := KeyFor(m[info.id]);
    assert Holds(v[k], info.id);
    var p :| 0 <= p < |v[k]| && v[k][p].containerID == info.id;
    assert Stands(m, k, v[k][p]);
    assert Stands(m[info.id := info], k, w[k][p]);
  }

  lemma NoOther(n: map<string, Info>, us: seq<T.Target>, i: nat, c: string, info: Info)
    requires PoolMirrors(n, KeyFor(info), us) && Holds(us, c) && c in n && c != info.id
    requires i < |us| && Is(us[i], info)
    ensures n[c].address != info.address
  {
    hide KeyFor;
    var p :| 0 <= p < |us| && us[p].containerID == c;
    assert Stands(n, KeyFor(info), us[p]);
    assert us[p].address != us[i].address;
  }

  // AddRoute keeps the mirror exactly when it fits.
  lemma AddMirrorsExactlyWhen(m: map<string, Info>, v: map<string, seq<T.Target>>, info: Info)
    requires Mirrored(m, v)
    ensures Mirrored(m[info.id := info], Next(v, Sunk(AddRoute(info)))) <==> Fits(m, info)
  {
    hide Mirrored;
    hide Fits;
    hide Next;
    if Fits(m, info) {
      AddMirrors(m, v, info);
    }
    if Mirrored(m[info.id := info], Next(v, Sunk(AddRoute(info)))) {
      MirroredFits(m, v, info);
    }
  }

  // One pool after RemoveRoute.
  lemma PoolLeaves(m: map<string, Info>, ts: seq<T.Target>, key: string, id: string)
    requires PoolMirrors(m, key, ts)
    ensures var us := T.Step(ts, T.Remove(id));
            && PoolMirrors(m - {id}, key, us)
            && (forall c :: c != id && Holds(ts, c) ==> Holds(us, c))
  {
    hide T.Step;
    hide T.Distinct;
    hide T.AtMostOne;
    hide T.Others;
    hide KeyFor;
    StandsOnce(m, ts, key, id);
    T.RemoveDropsContainer(ts, id);
    T.StepKeepsDistinct(ts, T.Remove(id));
    OthersAre(ts, id);
    var us := T.Others(ts, id);
    forall i | 0 <= i < |us| ensures Stands(m - {id}, key, us[i]) {
      assert us[i] in ts;
    }
    forall c | c != id && Holds(ts, c) ensures Holds(us, c) {
      var i :| 0 <= i < |ts| && ts[i].containerID == c;
      assert ts[i] in us;
    }
  }

  // In one pool a container stands once.
  lemma StandsOnce(m: map<string, Info>, ts: seq<T.Target>, key: string, c: string)
    requires PoolMirrors(m, key, ts)
    ensures T.AtMostOne(ts, c)
  {
    hide KeyFor;
  }

  lemma {:induction false} OthersAre(ts: seq<T.Target>, c: string)
    ensures forall t :: t in T.Others(ts, c) <==> t in ts && t.containerID != c
  {
    if ts == [] {
    } else {
      OthersAre(ts[1..], c);
    }
  }

  lemma RemoveMirrors(m: map<string, Info>, v: map<string, seq<T.Target>>, id: string)
    requires Mirrored(m, v)
    ensures Mirrored(m - {id}, Next(v, Sunk(RemoveRoute(id))))
  {
    hide T.Step;
    hide PoolMirrors;
    hide KeyFor;
    var n, w := m - {id}, Next(v, Sunk(RemoveRoute(id)));
    forall k | k in w ensures w[k] != [] && PoolMirrors(n, k, w[k]) {
      PoolLeaves(m, v[k], k, id);
    }
    forall c | c in n ensures KeyFor(n[c]) in w && Holds(w[KeyFor(n[c])], c) {
      PoolLeaves(m, v[KeyFor(m[c])], KeyFor(m[c]), id);
    }
  }

  // Marks and records move no container.
  lemma PoolStays(m: map<string, Info>, ts: seq<T.Target>, key: string, op: T.Op)
    requires PoolMirrors(m, key, ts) && !op.Add? && !op.Remove?
    ensures var us := T.Step(ts, op);
            && |us| == |ts| && PoolMirrors(m, key, us)
            && (forall c :: Holds(ts, c) ==> Holds(us, c))
  {
    hide KeyFor;
    var us := T.Step(ts, op);
    assert forall i :: 0 <= i < |ts| ==>
        us[i].address == ts[i].address && us[i].containerID == ts[i].containerID && us[i].weight == ts[i].weight;
    forall i | 0 <= i < |us| ensures Stands(m, key, us[i]) {
      assert Stands(m, key, ts[i]);
    }
    forall c | Holds(ts, c) ensures Holds(us, c) {
      var i :| 0 <= i < |ts| && ts[i].containerID == c;
      assert us[i].containerID == c;
    }
  }

  lemma PassiveMirrors(m: map<string, Info>, v: map<string, seq<T.Target>>, e: Event)
    requires Mirrored(m, v) && !e.Sunk?
    ensures Mirrored(m, Next(v, e))
  {
    hide T.Step;
    hide PoolMirrors;
    hide Holds;
    hide KeyFor;
    var op := match e
              case Marked(a, healthy) => if healthy then T.MarkHealthy(a) else T.MarkUnhealthy(a)
              case Recorded(key, tally) => tally;
    var w := Next(v, e);
    forall k | k in v ensures |w[k]| == |v[k]| && PoolMirrors(m, k, w[k]) && forall c :: Holds(v[k], c) ==> Holds(w[k], c) {
      PoolStays(m, v[k], k, op);
    }
  }

  ghost predicate FitsAt(run: seq<Event>, n: nat)
    requires n < |run|
  {
    run[n].Sunk? && run[n].call.AddRoute? ==> Fits(Containers(run[..n]), run[n].call.info)
  }

  ghost predicate MirroredAt(run: seq<Event>, n: nat)
    requires n <= |run|
  {
    Mirrored(Containers(run[..n]), Pools(run[..n]))
  }

  // One event keeps the mirror exactly when it fits.
  lemma EventMirrors(run: seq<Event>, n: nat)
    requires n < |run| && MirroredAt(run, n)
    ensures MirroredAt(run, n + 1) <==> FitsAt(run, n)
  {
    hide Mirrored;
    hide Fits;
    hide Next;
    var now := run[..n + 1];
    assert now[..n] == run[..n];
    ContainersNext(now);
    hide Containers;
    var m, v := Containers(run[..n]), Pools(run[..n]);
    match run[n]
    case Sunk(AddRoute(info)) => AddMirrorsExactlyWhen(m, v, info);
    case Sunk(RemoveRoute(id)) => RemoveMirrors(m, v, id);
    case _ => PassiveMirrors(m, v, run[n]);
  }

  // Whatever is marked and recorded meanwhile: as long as every AddRoute fits, the table
  // serves exactly the engine's containers, one target each, with address and weight.
  lemma {:induction false} TableMirrorsEngine(run: seq<Event>, n: nat)
    requires n <= |run| && forall i :: 0 <= i < n ==> FitsAt(run, i)
    ensures MirroredAt(run, n)
  {
    if n == 0 {
      assert run[..0] == [];
    } else {
      TableMirrorsEngine(run, n - 1);
      hide MirroredAt;
      hide FitsAt;
      assert FitsAt(run, n - 1);
      EventMirrors(run, n - 1);
    }
  }

  // It does so all along exactly when every AddRoute fits.
  lemma MirroredThroughoutExactlyWhen(run: seq<Event>)
    ensures (forall n :: 0 <= n <= |run| ==> MirroredAt(run, n)) <==> (forall n :: 0 <= n < |run| ==> FitsAt(run, n))
  {
    hide MirroredAt;
    hide FitsAt;
    if forall n :: 0 <= n < |run| ==> FitsAt(run, n) {
      forall n | 0 <= n <= |run| ensures MirroredAt(run, n) {
        TableMirrorsEngine(run, n);
      }
    }
    if forall n :: 0 <= n <= |run| ==> MirroredAt(run, n) {
      forall n | 0 <= n < |run| ensures FitsAt(run, n) {
        assert MirroredAt(run, n) && MirroredAt(run, n + 1);
        EventMirrors(run, n);
      }
    }
  }
}
