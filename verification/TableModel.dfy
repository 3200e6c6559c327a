// internal/router/table.go as values: the flat map of routes next to what the trees hold.
module TableModel {
  import opened Options
  import opened Paths
  import opened Hosts
  import opened Routes
  import T = Targets

  // routes: the flat map by key. slots: the contents of all trees together.
  datatype State = State(routes: map<string, Route>, slots: map<Slot, Route>)

  function SlotOf(r: Route): Slot {
    SlotAt(r.host, r.pathPrefix)
  }

  function KeyOf(r: Route): string {
    RouteKey(r.host, r.pathPrefix)
  }

  // Identity and pool play no part in where a route is kept.
  lemma SamePlace(r: Route, u: Route)
    requires u == r.(id := u.id, backend := u.backend)
    ensures KeyOf(u) == KeyOf(r) && SlotOf(u) == SlotOf(r)
  {
  }

  // The routes one host's tree holds.
  function HostRoutes(slots: map<Slot, Route>, h: string): map<string, Route> {
    map p | p in (set s | s in slots && s.host == h :: s.path) :: slots[Slot(h, p)]
  }

  lemma HostRoutesGet(slots: map<Slot, Route>, h: string, p: string)
    ensures Get(HostRoutes(slots, h), p) == Get(slots, Slot(h, p))
  {
    if Slot(h, p) in slots {
      assert Slot(h, p).path in (set s | s in slots && s.host == h :: s.path);
    }
  }

  lemma HostRoutesPut(slots: map<Slot, Route>, s: Slot, r: Option<Route>, h: string)
    ensures HostRoutes(Put(slots, s, r), h)
         == if h == s.host then Put(HostRoutes(slots, h), s.path, r) else HostRoutes(slots, h)
  {
    hide HostRoutes;
    var got := HostRoutes(Put(slots, s, r), h);
    var want := if h == s.host then Put(HostRoutes(slots, h), s.path, r) else HostRoutes(slots, h);
    forall p ensures Get(got, p) == Get(want, p) {
      HostRoutesGet(Put(slots, s, r), h, p);
      HostRoutesGet(slots, h, p);
    }
    SameByGet(got, want);
  }

  // The steps of the table, on values.

  function Drop(s: State, key: string): State {
    if key in s.routes then State(s.routes - {key}, s.slots - {SlotOf(s.routes[key])}) else s
  }

  function Store(s: State, r: Route): State {
    var t := Drop(s, KeyOf(r));
    State(t.routes[KeyOf(r) := r], t.slots[SlotOf(r) := r])
  }

  ghost predicate Keyed(s: State) {
    forall k :: k in s.routes ==> KeyOf(s.routes[k]) == k
  }

  lemma StoreIs(s: State, r: Route, t: State)
    requires Keyed(s) && t.routes == s.routes[KeyOf(r) := r]
    requires t.slots == Put(Drop(s, KeyOf(r)).slots, SlotOf(r), Some(r))
    ensures t == Store(s, r) && Keyed(t)
  {
    hide SlotOf;
    hide KeyOf;
  }

  lemma DropNone(s: State, key: string)
    requires key !in s.routes
    ensures Drop(s, key) == s
  {
  }

  lemma DropIs(s: State, key: string, t: State)
    requires Keyed(s) && key in s.routes && t.routes == s.routes - {key}
    requires t.slots == Put(s.slots, SlotOf(s.routes[key]), None)
    ensures t == Drop(s, key) && Keyed(t)
  {
    hide SlotOf;
    hide KeyOf;
  }

  // The trees hold exactly the routes of the flat map, each in its own slot.
  ghost predicate Agree(s: State) {
    && Keyed(s)
    && (forall k :: k in s.routes ==> Get(s.slots, SlotOf(s.routes[k])) == Some(s.routes[k]))
    && (forall t :: t in s.slots ==> SlotOf(s.slots[t]) == t && Get(s.routes, KeyOf(s.slots[t])) == Some(s.slots[t]))
  }

  // The slot of r belongs to no route with another key.
  predicate SlotFree(s: State, r: Route) {
    forall k :: k in s.routes && k != KeyOf(r) ==> SlotOf(s.routes[k]) != SlotOf(r)
  }

  lemma DropKeepsAgree(s: State, key: string)
    requires Agree(s)
    ensures Agree(Drop(s, key))
  {
    hide SlotOf;
    hide KeyOf;
  }

  lemma StoreKeepsAgree(s: State, r: Route)
    requires Agree(s) && SlotFree(s, r)
    ensures Agree(Store(s, r))
  {
    hide SlotOf;
    hide KeyOf;
    DropKeepsAgree(s, KeyOf(r));
  }

  lemma StoreClashes(s: State, r: Route, k: string)
    requires Agree(s) && k in s.routes && k != KeyOf(r) && SlotOf(s.routes[k]) == SlotOf(r)
    ensures !Agree(Store(s, r))
  {
    hide SlotOf;
    hide KeyOf;
    var t := Store(s, r);
    assert k in t.routes && t.routes[k] == s.routes[k];
    assert Get(t.slots, SlotOf(t.routes[k])) == Some(r);
    assert KeyOf(s.routes[k]) == k;
  }

  // Storing a route keeps the trees in step exactly when it takes no other route's slot.
  lemma StoreKeepsAgreeExactlyWhen(s: State, r: Route)
    requires Agree(s)
    ensures Agree(Store(s, r)) <==> SlotFree(s, r)
  {
    hide SlotOf;
    hide KeyOf;
    hide Agree;
    hide Store;
    if SlotFree(s, r) {
      StoreKeepsAgree(s, r);
    } else {
      var k :| k in s.routes && k != KeyOf(r) && SlotOf(s.routes[k]) == SlotOf(r);
      StoreClashes(s, r, k);
    }
  }

  ghost predicate AllClean(s: State) {
    forall k :: k in s.routes ==> Clean(s.routes[k].pathPrefix)
  }

  // RemoveByContainer, key by key: those not in todo are done.
  ghost predicate Drained(s0: State, v0: map<string, seq<T.Target>>, s: State, v: map<string, seq<T.Target>>,
                          todo: set<string>, c: string)
  {
    && DrainedRoutes(s0.routes, v0, s.routes, v, todo, c)
    && Cleared(s0, s)
    && (Agree(s0) ==> Agree(s))
  }

  // A route goes exactly if its pool is left without targets; the others only lose c.
  ghost predicate DrainedRoutes(r0: map<string, Route>, v0: map<string, seq<T.Target>>,
                                r: map<string, Route>, v: map<string, seq<T.Target>>, todo: set<string>, c: string)
  {
    && v0.Keys == r0.Keys && v.Keys == r.Keys
    && todo <= r.Keys && r.Keys <= r0.Keys
    && (forall k :: k in r ==> r[k] == r0[k])
    && (forall k :: k in r0 ==>
          if k in todo then v[k] == v0[k]
          else
            && (k in r <==> T.Step(v0[k], T.Remove(c)) != [])
            && (k in r ==> v[k] == T.Step(v0[k], T.Remove(c))))
  }

  lemma DrainedRoutesDrop(r0: map<string, Route>, v0: map<string, seq<T.Target>>,
                          r: map<string, Route>, v: map<string, seq<T.Target>>, todo: set<string>, c: string, id: string)
    requires DrainedRoutes(r0, v0, r, v, todo, c) && id in todo && T.Step(v[id], T.Remove(c)) == []
    ensures DrainedRoutes(r0, v0, r - {id}, v - {id}, todo - {id}, c)
  {
    hide T.Step;
  }

  // The trees lost the slots of the routes that went, and nothing else.
  ghost predicate Cleared(s0: State, s: State) {
    forall t :: Get(s.slots, t)
      == if exists k :: k in s0.routes && k !in s.routes && SlotOf(s0.routes[k]) == t then None else Get(s0.slots, t)
  }

  lemma DrainedStart(s: State, v: map<string, seq<T.Target>>, c: string)
    requires v.Keys == s.routes.Keys
    ensures Drained(s, v, s, v, s.routes.Keys, c)
  {
  }

  lemma ClearedStep(s0: State, s: State, id: string)
    requires Cleared(s0, s)
    requires id in s.routes && s.routes.Keys <= s0.routes.Keys && s.routes[id] == s0.routes[id]
    ensures Cleared(s0, Drop(s, id))
  {
    hide SlotOf;
    var s1 := Drop(s, id);
    forall t ensures Get(s1.slots, t)
      == if exists k :: k in s0.routes && k !in s1.routes && SlotOf(s0.routes[k]) == t then None else Get(s0.slots, t)
    {
      if t == SlotOf(s0.routes[id]) {
        assert id in s0.routes && id !in s1.routes;
      } else {
        assert Get(s1.slots, t) == Get(s.slots, t);
        assert forall k :: k in s0.routes && k !in s1.routes && SlotOf(s0.routes[k]) == t ==> k !in s.routes;
        assert forall k :: k in s0.routes && k !in s.routes && SlotOf(s0.routes[k]) == t ==> k !in s1.routes;
      }
    }
  }

  // One key done: its pool drained and the route went.
  lemma DrainedDrop(s0: State, v0: map<string, seq<T.Target>>, s: State, v: map<string, seq<T.Target>>,
                    todo: set<string>, c: string, id: string)
    requires Drained(s0, v0, s, v, todo, c) && id in todo && T.Step(v[id], T.Remove(c)) == []
    ensures Drained(s0, v0, Drop(s, id), v - {id}, todo - {id}, c)
    ensures todo - {id} <= Drop(s, id).routes.Keys
  {
    DrainedRoutesDrop(s0.routes, v0, s.routes, v, todo, c, id);
    ClearedStep(s0, s, id);
    if Agree(s) {
      DropKeepsAgree(s, id);
    }
    hide Agree;
    hide Cleared;
    hide T.Step;
  }

  // One key done: its pool kept other targets.
  lemma DrainedKeep(s0: State, v0: map<string, seq<T.Target>>, s: State, v: map<string, seq<T.Target>>,
                    todo: set<string>, c: string, id: string)
    requires Drained(s0, v0, s, v, todo, c) && id in todo && T.Step(v[id], T.Remove(c)) != []
    ensures Drained(s0, v0, s, v[id := T.Step(v[id], T.Remove(c))], todo - {id}, c)
    ensures todo - {id} <= s.routes.Keys
  {
    hide SlotOf;
    hide T.Step;
    hide Agree;
    hide Cleared;
  }

  // With at most one target per pool, stopping a container takes away its targets and no
  // others, keeps the rest with their statistics and order, and drops a route exactly when
  // its pool is left empty.
  lemma StoppingRemovesExactly(s0: State, v0: map<string, seq<T.Target>>, s: State, v: map<string, seq<T.Target>>, c: string)
    requires Drained(s0, v0, s, v, {}, c)
    requires forall k :: k in v0 ==> T.AtMostOne(v0[k], c)
    ensures forall k :: k in s0.routes ==> k in v0
    ensures forall k :: k in s0.routes ==> (k in s.routes <==> T.Others(v0[k], c) != [])
    ensures forall k :: k in s.routes ==> k in s0.routes && s.routes[k] == s0.routes[k] && v[k] == T.Others(v0[k], c)
    ensures forall k, i :: k in v && 0 <= i < |v[k]| ==> v[k][i].containerID != c
  {
    forall k | k in v0 ensures T.Step(v0[k], T.Remove(c)) == T.Others(v0[k], c) {
      T.RemoveDropsContainer(v0[k], c);
    }
    hide T.Step;
    forall k | k in v ensures forall i :: 0 <= i < |v[k]| ==> v[k][i].containerID != c {
      T.OthersDropsAll(v0[k], c);
    }
  }

  // What removing container c makes of one key: its pool shrinks, or the route goes.
  function DrainOne(s: State, v: map<string, seq<T.Target>>, id: string, c: string): (State, map<string, seq<T.Target>>)
    requires id in s.routes && id in v
  {
    var rest := T.Step(v[id], T.Remove(c));
    if rest == [] then (Drop(s, id), v - {id}) else (s, v[id := rest])
  }

  lemma DrainedNext(s0: State, v0: map<string, seq<T.Target>>, s: State, v: map<string, seq<T.Target>>,
                    todo: set<string>, c: string, id: string)
    requires Drained(s0, v0, s, v, todo, c) && id in todo && todo <= s.routes.Keys && id in v
    ensures var (t, u) := DrainOne(s, v, id, c);
            Drained(s0, v0, t, u, todo - {id}, c) && todo - {id} <= t.routes.Keys
  {
    hide Drained;
    hide Drop;
    if T.Step(v[id], T.Remove(c)) == [] {
      DrainedDrop(s0, v0, s, v, todo, c, id);
    } else {
      DrainedKeep(s0, v0, s, v, todo, c, id);
    }
  }

  // What Match promises, on the flat map alone.

  ghost predicate Candidate(routes: map<string, Route>, h: string, p: string, k: string) {
    k in routes && SlotOf(routes[k]).host == h && SlotOf(routes[k]).path <= p
  }

  // The route under k is the longest-prefix route of host h for path p.
  ghost predicate LongestRoute(routes: map<string, Route>, h: string, p: string, k: string) {
    && Candidate(routes, h, p, k)
    && (forall j :: Candidate(routes, h, p, j) && j != k ==> |SlotOf(routes[j]).path| < |SlotOf(routes[k]).path|)
  }

  lemma LongestOfHost(s: State, h: string, p: string)
    requires Agree(s)
    ensures var r := LongestMatch(HostRoutes(s.slots, h), p);
            if r.Some? then LongestRoute(s.routes, h, p, KeyOf(r.value)) && s.routes[KeyOf(r.value)] == r.value
            else forall k :: !Candidate(s.routes, h, p, k)
  {
    hide SlotOf;
    hide KeyOf;
    hide HostRoutes;
    hide LongestMatch;
    var m := HostRoutes(s.slots, h);
    LongestMatchIsLongest(m, p);
    forall k | Candidate(s.routes, h, p, k)
      ensures IsPrefixKey(m, p, SlotOf(s.routes[k]).path) && m[SlotOf(s.routes[k]).path] == s.routes[k]
    {
      HostRoutesGet(s.slots, h, SlotOf(s.routes[k]).path);
    }
    var r := LongestMatch(m, p);
    if r.Some? {
      var q :| IsLongestKey(m, p, q) && r.value == m[q];
      HostRoutesGet(s.slots, h, q);
      assert Slot(h, q) in s.slots && s.slots[Slot(h, q)] == r.value;
      var k := KeyOf(r.value);
      forall j | Candidate(s.routes, h, p, j) && j != k
        ensures |SlotOf(s.routes[j]).path| < |q|
      {
        var o := SlotOf(s.routes[j]).path;
        assert IsPrefixKey(m, p, o);
        assert |o| <= |q| && o == p[..|o|] && q == p[..|q|];
        assert m[o] == s.routes[j] && m[q] == r.value;
      }
    }
  }

  ghost predicate ExactRoute(routes: map<string, Route>, host: string, p: string, k: string) {
    !IsWildcard(host) && LongestRoute(routes, host, p, k)
  }

  // The longest-prefix route of some wildcard pattern that matches the host.
  ghost predicate WildcardRoute(routes: map<string, Route>, host: string, p: string, k: string) {
    k in routes && var h := SlotOf(routes[k]).host;
    WildcardMatch(h, host) && LongestRoute(routes, h, p, k)
  }

  // The exact host's longest-prefix route if it has any candidate, else the longest-prefix
  // route of some matching pattern, and none iff no pattern has a candidate either.
  ghost predicate MatchSpec(routes: map<string, Route>, host: string, p: string, r: Option<Route>) {
    if exists k :: !IsWildcard(host) && Candidate(routes, host, p, k) then
      exists k :: ExactRoute(routes, host, p, k) && r == Some(routes[k])
    else if r.Some? then
      exists k :: WildcardRoute(routes, host, p, k) && r == Some(routes[k])
    else
      forall k :: k in routes && WildcardMatch(SlotOf(routes[k]).host, host) ==> !(SlotOf(routes[k]).path <= p)
  }

  // A request for v and path asks for this route: its host in any casing, with or without a
  // port, and a path that its prefix covers.
  ghost predicate Asked(route: Route, v: string, path: string) {
    && route.host != "" && ':' !in route.host && !IsWildcard(NormalizeHost(route.host))
    && Names(v, route.host) && Covers(route.pathPrefix, path)
  }

  // The answer is a route of the same host whose prefix is no shorter.
  predicate Serves(answer: Option<Route>, route: Route) {
    && answer.Some? && SlotOf(answer.value).host == SlotOf(route).host
    && |SlotOf(answer.value).path| >= |SlotOf(route).path|
  }

  // A route is found by every request that asks for it.
  lemma RouteFound(routes: map<string, Route>, v: string, path: string, k: string, r: Option<Route>)
    requires MatchSpec(routes, NormalizeHost(v), NormalizePath(NormalizePath(path)), r)
    requires k in routes && Asked(routes[k], v, path)
    ensures Serves(r, routes[k])
  {
    NamesNormalized(v, routes[k].host);
    CoversNormalized(routes[k].pathPrefix, path);
    hide NormalizeHost;
    hide NormalizePath;
    hide IsWildcard;
    hide WildcardMatch;
    hide Names;
    hide Covers;
    var host, p := NormalizeHost(v), NormalizePath(NormalizePath(path));
    assert Candidate(routes, host, p, k);
  }

  // Requests that differ in the casing of the host or its port get the same answers.
  lemma NamedAlike(routes: map<string, Route>, h: string, v: string, w: string, p: string, r: Option<Route>)
    requires h != "" && ':' !in h && Names(v, h) && Names(w, h)
    ensures MatchSpec(routes, NormalizeHost(RequestHost(v)), p, r) <==> MatchSpec(routes, NormalizeHost(RequestHost(w)), p, r)
  {
    NamesNormalized(v, h);
    NamesNormalized(w, h);
    hide MatchSpec;
  }

  // What Match answers, on the contents of the trees.
  ghost predicate Answer(slots: map<Slot, Route>, host: string, p: string, r: Option<Route>) {
    if !IsWildcard(host) && LongestMatch(HostRoutes(slots, host), p).Some? then
      r == LongestMatch(HostRoutes(slots, host), p)
    else
      WildcardAnswer(slots, host, p, r)
  }

  ghost predicate WildcardAnswer(slots: map<Slot, Route>, host: string, p: string, r: Option<Route>) {
    if r.Some? then exists h :: WildcardMatch(h, host) && r == LongestMatch(HostRoutes(slots, h), p)
    else forall h :: WildcardMatch(h, host) ==> LongestMatch(HostRoutes(slots, h), p).None?
  }

  // The two say the same when the trees agree with the flat map.
  lemma AnswerIsMatch(s: State, host: string, p: string, r: Option<Route>)
    requires Agree(s) && Answer(s.slots, host, p, r)
    ensures MatchSpec(s.routes, host, p, r)
  {
    hide HostRoutes;
    hide LongestMatch;
    hide SlotOf;
    hide KeyOf;
    hide IsWildcard;
    hide WildcardMatch;
    hide Agree;
    LongestOfHost(s, host, p);
    if !IsWildcard(host) && LongestMatch(HostRoutes(s.slots, host), p).Some? {
      assert ExactRoute(s.routes, host, p, KeyOf(r.value));
    } else if r.Some? {
      var h :| WildcardMatch(h, host) && r == LongestMatch(HostRoutes(s.slots, h), p);
      LongestOfHost(s, h, p);
      assert WildcardRoute(s.routes, host, p, KeyOf(r.value));
    } else {
      forall k | k in s.routes && WildcardMatch(SlotOf(s.routes[k]).host, host)
        ensures !(SlotOf(s.routes[k]).path <= p)
      {
        LongestOfHost(s, SlotOf(s.routes[k]).host, p);
        assert !Candidate(s.routes, SlotOf(s.routes[k]).host, p, k);
      }
    }
  }

  // The contents of the exact trees (e) and of the wildcard trees (w).
  ghost predicate Halves(slots: map<Slot, Route>, e: map<Slot, Route>, w: map<Slot, Route>) {
    && slots == e + w
    && (forall s :: s in e ==> !IsWildcard(s.host))
    && (forall s :: s in w ==> IsWildcard(s.host))
  }

  lemma HalvesOfHost(slots: map<Slot, Route>, e: map<Slot, Route>, w: map<Slot, Route>, h: string)
    requires Halves(slots, e, w)
    ensures HostRoutes(e, h) == if IsWildcard(h) then map[] else HostRoutes(slots, h)
    ensures HostRoutes(w, h) == if IsWildcard(h) then HostRoutes(slots, h) else map[]
  {
    hide IsWildcard;
    forall p
      ensures Get(HostRoutes(slots, h), p) == Get(slots, Slot(h, p))
      ensures Get(HostRoutes(e, h), p) == Get(e, Slot(h, p))
      ensures Get(HostRoutes(w, h), p) == Get(w, Slot(h, p))
    {
      HostRoutesGet(slots, h, p);
      HostRoutesGet(e, h, p);
      HostRoutesGet(w, h, p);
    }
  }

  lemma NothingBound(p: string)
    ensures LongestMatch<Route>(map[], p) == None
  {
    LongestMatchIsLongest<Route>(map[], p);
  }

  // Every address served under some of the keys.
  ghost function AddressesUnder(v: map<string, seq<T.Target>>, keys: set<string>): set<string> {
    set k, i | k in keys && k in v && 0 <= i < |v[k]| :: v[k][i].address
  }

  // Every address some route serves.
  ghost function Addresses(v: map<string, seq<T.Target>>): set<string> {
    AddressesUnder(v, v.Keys)
  }

  function AddressSet(ts: seq<T.Target>): set<string> {
    set i | 0 <= i < |ts| :: ts[i].address
  }

  function SetOf<X>(xs: seq<X>): set<X> {
    set x | x in xs
  }

  lemma Nothing<X>(xs: seq<X>)
    requires xs == []
    ensures SetOf(xs) == {}
  {
  }

  lemma SetOfAppend<X>(xs: seq<X>, x: X)
    ensures SetOf(xs + [x]) == SetOf(xs) + {x}
    ensures x in xs ==> SetOf(xs) + {x} == SetOf(xs)
  {
  }

  lemma AddressSetNext(ts: seq<T.Target>, n: nat)
    requires n < |ts|
    ensures AddressSet(ts[..n + 1]) == AddressSet(ts[..n]) + {ts[n].address}
  {
    var all := AddressSet(ts[..n + 1]);
    assert ts[..n + 1][n].address in all;
    forall i | 0 <= i < n ensures ts[..n][i].address in all {
      assert ts[..n][i] == ts[..n + 1][i];
    }
    assert forall i :: 0 <= i < n ==> ts[..n + 1][i] == ts[..n][i];
  }

  lemma NoAddresses(v: map<string, seq<T.Target>>)
    ensures AddressesUnder(v, {}) == {}
  {
  }

  lemma AddressesGrow(v: map<string, seq<T.Target>>, keys: set<string>, k: string)
    requires k in v
    ensures AddressesUnder(v, keys + {k}) == AddressesUnder(v, keys) + AddressSet(v[k])
  {
    var all := AddressesUnder(v, keys + {k});
    forall a | a in AddressSet(v[k]) ensures a in all {
      var i :| 0 <= i < |v[k]| && v[k][i].address == a;
      assert k in keys + {k};
    }
  }

  // One call made on every pool but those under the keys in todo.
  function MarkedBut(v: map<string, seq<T.Target>>, todo: set<string>, op: T.Op): map<string, seq<T.Target>> {
    map k | k in v :: if k in todo then v[k] else T.Step(v[k], op)
  }

  // One call on every pool.
  function Everywhere(v: map<string, seq<T.Target>>, op: T.Op): map<string, seq<T.Target>> {
    MarkedBut(v, {}, op)
  }

  // A mark reaches the address in every pool, and nothing else.
  lemma MarkReaches(v: map<string, seq<T.Target>>, a: string, healthy: bool, k: string, i: nat)
    requires k in v && T.Distinct(v[k]) && i < |v[k]|
    ensures var w: map<string, seq<T.Target>> := Everywhere(v, if healthy then T.MarkHealthy(a) else T.MarkUnhealthy(a));
            && w.Keys == v.Keys && |w[k]| == |v[k]| && w[k][i].address == v[k][i].address
            && (v[k][i].address == a ==> w[k][i].healthy == healthy)
            && (v[k][i].address != a ==> w[k][i] == v[k][i])
  {
    hide T.HealthyCount;
  }

  lemma MarkedNext(v: map<string, seq<T.Target>>, todo: set<string>, op: T.Op, id: string)
    requires id in todo && id in v
    ensures MarkedBut(v, todo, op)[id] == v[id]
    ensures MarkedBut(v, todo, op)[id := T.Step(v[id], op)] == MarkedBut(v, todo - {id}, op)
  {
    hide T.Step;
  }

  lemma MarkedNone(v: map<string, seq<T.Target>>, op: T.Op)
    ensures MarkedBut(v, v.Keys, op) == v
  {
  }
}
