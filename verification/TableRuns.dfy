// internal/router/table.go: whole runs of the table, on values. A run starts from an empty
// table and may add, remove and stop anything.
module TableRuns {
  import opened Options
  import opened Paths
  import opened Hosts
  import opened Routes
  import opened TableModel
  import T = Targets

  // The table next to the targets each of its routes serves.
  datatype Deployed = Deployed(table: State, pools: map<string, seq<T.Target>>)

  // `brought` is what the caller's own pool holds.
  datatype TableOp =
    | Upsert(route: Route, brought: seq<T.Target>, target: Option<T.Target>)
    | Remove(key: string)
    | RemoveByContainer(containerID: string)

  function Gain(pools: map<string, seq<T.Target>>, key: string, brought: seq<T.Target>, target: Option<T.Target>): map<string, seq<T.Target>> {
    var base := if key in pools then pools[key] else brought;
    pools[key := if target.Some? then T.Step(base, T.Add(target.value)) else base]
  }

  // The targets that are left when container c goes, under the keys that have any.
  function Left(pools: map<string, seq<T.Target>>, c: string): map<string, seq<T.Target>> {
    map k | k in pools && T.Step(pools[k], T.Remove(c)) != [] :: T.Step(pools[k], T.Remove(c))
  }

  ghost function StopContainer(d: Deployed, c: string): Deployed {
    var pools := Left(d.pools, c);
    var routes := map k | k in d.table.routes && k in pools :: d.table.routes[k];
    var slots := map t | t in d.table.slots && !(exists k :: Gone(d.table.routes, routes, t, k)) :: d.table.slots[t];
    Deployed(State(routes, slots), pools)
  }

  // The route under k went, and t was its place in the trees.
  predicate Gone(before: map<string, Route>, after: map<string, Route>, t: Slot, k: string) {
    k in before && k !in after && SlotOf(before[k]) == t
  }

  ghost function Apply(d: Deployed, op: TableOp): Deployed {
    match op
    case Upsert(r, brought, target) => Deployed(Store(d.table, r), Gain(d.pools, KeyOf(r), brought, target))
    case Remove(k) => Deployed(Drop(d.table, k), d.pools - {k})
    case RemoveByContainer(c) => StopContainer(d, c)
  }

  ghost function RunTable(ops: seq<TableOp>): Deployed {
    if ops == [] then Deployed(State(map[], map[]), map[]) else Apply(RunTable(ops[..|ops| - 1]), ops[|ops| - 1])
  }

  lemma UpsertIs(s: State, v: map<string, seq<T.Target>>, r: Route, key: string, brought: seq<T.Target>, target: Option<T.Target>)
    requires KeyOf(r) == key
    ensures Deployed(Store(s, r), Gain(v, key, brought, target))
         == Apply(Deployed(s, v), Upsert(r, brought, target))
  {
    hide Store;
    hide Gain;
  }

  // What the table's RemoveByContainer promises is StopContainer.
  lemma DrainedStops(s0: State, v0: map<string, seq<T.Target>>, s: State, v: map<string, seq<T.Target>>, c: string)
    requires Drained(s0, v0, s, v, {}, c)
    ensures Deployed(s, v) == StopContainer(Deployed(s0, v0), c)
  {
    hide T.Step;
    hide SlotOf;
    hide Agree;
    var d := StopContainer(Deployed(s0, v0), c);
    assert v == d.pools;
    assert s.routes == d.table.routes;
    forall t ensures Get(s.slots, t) == Get(d.table.slots, t) {
      if k :| Gone(s0.routes, s.routes, t, k) {
        assert k in s0.routes && k !in s.routes && SlotOf(s0.routes[k]) == t;
      }
      if k :| k in s0.routes && k !in s.routes && SlotOf(s0.routes[k]) == t {
        assert Gone(s0.routes, s.routes, t, k);
      }
    }
    SameMap(s.slots, d.table.slots);
  }

  lemma SameMap<K, V>(m: map<K, V>, n: map<K, V>)
    requires forall k :: Get(m, k) == Get(n, k)
    ensures m == n
  {
    assert forall k :: k in m <==> Get(m, k).Some?;
    assert forall k :: k in n <==> Get(n, k).Some?;
    assert forall k :: k in m ==> Some(m[k]) == Get(m, k) == Get(n, k) == Some(n[k]);
  }

  // A place in the trees belongs to one route.
  lemma OneOwner(s: State, j: string, k: string)
    requires Agree(s) && j in s.routes && k in s.routes && SlotOf(s.routes[j]) == SlotOf(s.routes[k])
    ensures j == k
  {
    hide SlotOf;
    hide KeyOf;
    assert Get(s.slots, SlotOf(s.routes[j])) == Some(s.routes[j]);
    assert Get(s.slots, SlotOf(s.routes[k])) == Some(s.routes[k]);
    assert KeyOf(s.routes[j]) == j && KeyOf(s.routes[k]) == k;
  }

  lemma StopKeepsAgree(d: Deployed, c: string)
    requires Agree(d.table)
    ensures Agree(StopContainer(d, c).table)
  {
    hide T.Step;
    hide SlotOf;
    hide KeyOf;
    var s, t := d.table, StopContainer(d, c).table;
    forall k | k in t.routes ensures Get(t.slots, SlotOf(t.routes[k])) == Some(t.routes[k]) {
      var p := SlotOf(s.routes[k]);
      assert Get(s.slots, p) == Some(s.routes[k]);
      forall j | j in s.routes && SlotOf(s.routes[j]) == p ensures j == k {
        OneOwner(s, j, k);
      }
    }
    forall p | p in t.slots ensures SlotOf(t.slots[p]) == p && Get(t.routes, KeyOf(t.slots[p])) == Some(t.slots[p]) {
      var k := KeyOf(s.slots[p]);
      assert Get(s.routes, k) == Some(s.slots[p]);
      assert !Gone(s.routes, t.routes, p, k);
    }
  }

  ghost predicate CleanOps(ops: seq<TableOp>) {
    forall i :: 0 <= i < |ops| && ops[i].Upsert? ==> Clean(ops[i].route.pathPrefix)
  }

  // A store whose prefix is clean takes no other route's place.
  lemma CleanSlotFree(s: State, r: Route)
    requires Keyed(s) && AllClean(s) && Clean(r.pathPrefix)
    ensures SlotFree(s, r)
  {
    hide Clean;
    forall k | k in s.routes && SlotOf(s.routes[k]) == SlotOf(r) ensures k == KeyOf(r) {
      SlotDeterminesKey(s.routes[k].host, s.routes[k].pathPrefix, r.host, r.pathPrefix);
    }
  }

  lemma StepKeepsAgree(d: Deployed, op: TableOp)
    requires Agree(d.table) && AllClean(d.table) && d.pools.Keys == d.table.routes.Keys
    requires op.Upsert? ==> Clean(op.route.pathPrefix)
    ensures var e := Apply(d, op); Agree(e.table) && AllClean(e.table) && e.pools.Keys == e.table.routes.Keys
  {
    hide Clean;
    hide T.Step;
    hide SlotOf;
    hide KeyOf;
    match op
    case Remove(k) => DropKeepsAgree(d.table, k);
    case RemoveByContainer(c) => StopKeepsAgree(d, c);
    case Upsert(r, _, _) =>
      CleanSlotFree(d.table, r);
      StoreKeepsAgreeExactlyWhen(d.table, r);
  }

  // Over any run whose path prefixes do not end in a doubled slash the trees hold exactly
  // the routes of the flat map, and every route has its pool.
  lemma {:induction false} RunKeepsAgree(ops: seq<TableOp>)
    requires CleanOps(ops)
    ensures var d := RunTable(ops); Agree(d.table) && AllClean(d.table) && d.pools.Keys == d.table.routes.Keys
  {
    if ops == [] {
    } else {
      var op, before := ops[|ops| - 1], ops[..|ops| - 1];
      RunKeepsAgree(before);
      hide Agree;
      hide AllClean;
      hide Apply;
      StepKeepsAgree(RunTable(before), op);
    }
  }

  // So after any such run Match answers as the flat map says.
  lemma RunMatches(ops: seq<TableOp>, host: string, p: string, r: Option<Route>)
    requires CleanOps(ops) && Answer(RunTable(ops).table.slots, host, p, r)
    ensures MatchSpec(RunTable(ops).table.routes, host, p, r)
  {
    hide RunTable;
    hide Answer;
    hide MatchSpec;
    hide CleanOps;
    RunKeepsAgree(ops);
    AnswerIsMatch(RunTable(ops).table, host, p, r);
  }

  // "/a" and "/a//" have different keys but one slot: removing the second leaves the
  // first in the flat map and out of the tree.
  lemma DoubledSlashLosesRoute(a: Route, b: Route)
    requires a.host == b.host == "h" && a.pathPrefix == "/a" && b.pathPrefix == "/a//"
    ensures var s := RunTable([Upsert(a, [], None), Upsert(b, [], None), Remove(KeyOf(b))]).table;
            KeyOf(a) in s.routes && s.slots == map[] && !Agree(s)
  {
    var u, w := Upsert(a, [], None), Upsert(b, [], None);
    var ops := [u, w, Remove(KeyOf(b))];
    assert ops[..2] == [u, w] && ops[..2][..1] == [u] && ops[..2][..1][..0] == [];
    assert NormalizePath("/a//") == "/a/" && NormalizePath("/a/") == "/a" && NormalizePath("/a") == "/a";
    assert SlotOf(a) == SlotOf(b);
    var n := NormalizeHost("h");
    assert |KeyOf(a)| == |n| + 3 && |KeyOf(b)| == |n| + 4;
    var s0 := State(map[], map[]);
    assert RunTable([]).table == s0;
    var s1 := Store(s0, a);
    assert RunTable([u]).table == s1;
    var s2 := Store(s1, b);
    assert RunTable(ops[..2]).table == s2;
    var s3 := Drop(s2, KeyOf(b));
    assert RunTable(ops).table == s3;
    assert s3.routes[KeyOf(a)] == a;
  }
}
