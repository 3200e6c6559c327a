// internal/router/table.go: the route table object. Each method is one critical section.
module RouteTable {
  import opened Options
  import opened Paths
  import opened Hosts
  import T = Targets
  import opened Selection
  import opened Backend
  import opened Routes
  import opened Radix
  import opened TableModel
  import opened HostTrees
  import Runs = TableRuns

  // The targets under each key when those under one become base and what is added to it.
  function Joined(v: map<string, seq<T.Target>>, key: string, base: seq<T.Target>, added: Option<T.Target>): map<string, seq<T.Target>> {
    v[key := if added.Some? then T.Step(base, T.Add(added.value)) else base]
  }

  ghost function ViewOf(target: BackendTarget?): Option<T.Target>
    reads target
  {
    if target == null then None else Some(target.View())
  }

  // The route is stored under its key, with one more target in the live pool, or else in
  // the pool the caller brought.
  ghost predicate Stored(s0: State, v0: map<string, seq<T.Target>>, s: State, v: map<string, seq<T.Target>>,
                         route: Route, base: seq<T.Target>, added: Option<T.Target>) {
    var key := KeyOf(route);
    && key in s.routes && s == Store(s0, s.routes[key])
    && s.routes[key] == route.(id := key, backend := s.routes[key].backend)
    && v == Joined(v0, key, base, added)
    && (key in s0.routes ==> s.routes[key].backend == s0.routes[key].backend)
  }

  lemma StoredIs(s0: State, v0: map<string, seq<T.Target>>, s: State, v: map<string, seq<T.Target>>,
                 route: Route, base: seq<T.Target>, added: Option<T.Target>, updated: Route)
    requires Keyed(s0) && updated == route.(id := KeyOf(route), backend := updated.backend)
    requires s.routes == s0.routes[KeyOf(route) := updated]
    requires s.slots == Put(Drop(s0, KeyOf(route)).slots, SlotOf(updated), Some(updated))
    requires KeyOf(route) in s0.routes ==> updated.backend == s0.routes[KeyOf(route)].backend
    requires v == Joined(v0, KeyOf(route), base, added)
    ensures Stored(s0, v0, s, v, route, base, added) && Keyed(s)
  {
    SamePlace(route, updated);
    StoreIs(s0, updated, s);
    hide Joined;
    hide Store;
    hide Drop;
    hide SlotOf;
    hide KeyOf;
  }

  class Table {
    const exact: Forest
    const wildcard: Forest
    var routes: map<string, Route>

    // The key each pool and each backend object belongs to: none is shared.
    ghost var home: map<BackendPool, string>
    ghost var owner: map<BackendTarget, string>

    // The flat map next to what the trees hold.
    ghost function View(): State
      reads this, exact, wildcard
    {
      State(routes, exact.slots + wildcard.slots)
    }

    ghost predicate TreesValid()
      reads exact, wildcard, exact.nodes, wildcard.nodes
    {
      && exact != wildcard && exact.nodes !! wildcard.nodes
      && exact.Valid() && wildcard.Valid()
      && (forall s :: s in exact.slots ==> !IsWildcard(s.host))
      && (forall s :: s in wildcard.slots ==> IsWildcard(s.host))
    }

    ghost predicate Holds(k: string, pool: BackendPool?)
      reads this, pool
    {
      && pool != null && pool in home && home[pool] == k
      && pool.Valid()
      && (forall t :: t in pool.targets ==> t in owner && owner[t] == k)
    }

    ghost predicate PoolsValid()
      reads this, home.Keys
    {
      forall k :: k in routes ==> routes[k].backend in home && Holds(k, routes[k].backend)
    }

    ghost predicate Valid()
      reads this, home.Keys, exact, wildcard, exact.nodes, wildcard.nodes
    {
      TreesValid() && PoolsValid() && Keyed(View())
    }

    // The targets served under each key.
    ghost function Served(): map<string, seq<T.Target>>
      requires PoolsValid()
      reads this, home.Keys, owner.Keys
    {
      map k | k in routes :: routes[k].backend.Contents()
    }

    // The table as a step of a run.
    ghost function Deployed(): Runs.Deployed
      requires PoolsValid()
      reads this, home.Keys, owner.Keys, exact, wildcard
    {
      Runs.Deployed(View(), Served())
    }

    constructor ()
      ensures Valid() && Deployed() == Runs.RunTable([])
      ensures View() == State(map[], map[])
      ensures home == map[] && owner == map[] && fresh(exact) && fresh(wildcard)
    {
      exact := new Forest();
      wildcard := new Forest();
      routes, home, owner := map[], map[], map[];
    }

    // addToTree
    method AddToTree(route: Route)
      requires TreesValid()
      modifies exact, wildcard, exact.nodes, wildcard.nodes
      ensures TreesValid() && fresh(exact.nodes - old(exact.nodes)) && fresh(wildcard.nodes - old(wildcard.nodes))
      ensures exact.slots + wildcard.slots == Put(old(exact.slots) + old(wildcard.slots), SlotOf(route), Some(route))
    {
      var host := NormalizeHost(route.host);
      var path := NormalizePath(route.pathPrefix);
      hide NormalizeHost;
      hide NormalizePath;
      hide Forest.Valid;
      hide IsWildcard;
      ghost var s := SlotOf(route);
      assert s == Slot(host, NormalizePath(path));
      hide SlotOf;
      UnionPut(exact.slots, wildcard.slots, s, Some(route));
      assert exact.slots[s := route] == Put(exact.slots, s, Some(route));
      assert wildcard.slots[s := route] == Put(wildcard.slots, s, Some(route));
      hide Put;
      if IsWildcard(host) {
        wildcard.Insert(host, path, route);
      } else {
        exact.Insert(host, path, route);
      }
    }

    // removeFromTrees
    method RemoveFromTrees(route: Route)
      requires TreesValid()
      modifies exact, wildcard, exact.nodes, wildcard.nodes
      ensures TreesValid() && exact.nodes == old(exact.nodes) && wildcard.nodes == old(wildcard.nodes)
      ensures exact.slots + wildcard.slots == Put(old(exact.slots) + old(wildcard.slots), SlotOf(route), None)
    {
      var host := NormalizeHost(route.host);
      var path := NormalizePath(route.pathPrefix);
      hide NormalizeHost;
      hide NormalizePath;
      hide Forest.Valid;
      hide IsWildcard;
      ghost var s := SlotOf(route);
      assert s == Slot(host, NormalizePath(path));
      hide SlotOf;
      UnionPut(exact.slots, wildcard.slots, s, None);
      assert forall x :: x in Put(exact.slots, s, None) ==> x in exact.slots;
      assert forall x :: x in Put(wildcard.slots, s, None) ==> x in wildcard.slots;
      hide Put;
      if IsWildcard(host) {
        wildcard.Delete(host, path);
      } else {
        exact.Delete(host, path);
      }
    }

    // Match: the exact host first, then any wildcard pattern that yields a route.
    method Match(host0: string, path0: string) returns (r: Option<Route>)
      requires Valid()
      ensures Answer(View().slots, NormalizeHost(host0), NormalizePath(NormalizePath(path0)), r)
      ensures Agree(View()) ==> MatchSpec(routes, NormalizeHost(host0), NormalizePath(NormalizePath(path0)), r)
      ensures Agree(View()) ==> forall k :: k in routes && Asked(routes[k], host0, path0) ==> Serves(r, routes[k])
    {
      hide Asked;
      hide Serves;
      var host := NormalizeHost(host0);
      var path := NormalizePath(path0);
      ghost var p := NormalizePath(path);
      hide NormalizeHost;
      hide NormalizePath;
      hide HostRoutes;
      hide LongestMatch;
      hide Agree;
      hide MatchSpec;
      hide WildcardAnswer;
      r := exact.Match(host, path);
      HalvesOfHost(View().slots, exact.slots, wildcard.slots, host);
      NothingBound(p);
      if r.None? {
        r := MatchWildcard(host, path);
      }
      if Agree(View()) {
        AnswerIsMatch(View(), host, p, r);
        forall k | k in routes && Asked(routes[k], host0, path0) ensures Serves(r, routes[k]) {
          RouteFound(routes, host0, path0, k, r);
        }
      }
    }

    // The second half of Match: try every matching pattern, in any order.
    method MatchWildcard(host: string, path: string) returns (r: Option<Route>)
      requires Valid()
      ensures WildcardAnswer(View().slots, host, NormalizePath(path), r)
    {
      ghost var p := NormalizePath(path);
      hide NormalizePath;
      hide HostRoutes;
      hide LongestMatch;
      hide WildcardMatch;
      hide Forest.Valid;
      var patterns := wildcard.trees.Keys;
      while patterns != {}
        invariant patterns <= wildcard.trees.Keys
        invariant forall h :: h in wildcard.trees && h !in patterns && WildcardMatch(h, host) ==>
                    LongestMatch(HostRoutes(View().slots, h), p).None?
      {
        var pattern :| pattern in patterns;
        patterns := patterns - {pattern};
        if WildcardMatch(pattern, host) {
          InWildcard(pattern, host);
          r := wildcard.Match(pattern, path);
          if r.Some? {
            return;
          }
        }
      }
      forall h | h !in wildcard.trees && WildcardMatch(h, host)
        ensures LongestMatch(HostRoutes(View().slots, h), p).None?
      {
        OutsideTrees(h, host, p);
      }
      r := None;
    }

    lemma OutsideTrees(h: string, host: string, p: string)
      requires TreesValid() && WildcardMatch(h, host) && h !in wildcard.trees
      ensures LongestMatch(HostRoutes(View().slots, h), p).None?
    {
      hide HostRoutes;
      hide LongestMatch;
      hide WildcardMatch;
      hide Forest.Valid;
      InWildcard(h, host);
      wildcard.NoRoutes(h);
      NothingBound(p);
    }

    // The routes of a pattern are in the wildcard map.
    lemma InWildcard(h: string, host: string)
      requires TreesValid() && WildcardMatch(h, host)
      ensures HostRoutes(wildcard.slots, h) == HostRoutes(View().slots, h)
    {
      HalvesOfHost(View().slots, exact.slots, wildcard.slots, h);
      hide HostRoutes;
    }

    // What the caller's pool holds.
    ghost function Brought(pool: BackendPool?): seq<T.Target>
      reads pool, if pool == null then {} else set t | t in pool.targets
    {
      if pool == null then [] else pool.Contents()
    }

    // What the pool of an upserted route held before its new target.
    ghost function Base(route: Route): seq<T.Target>
      requires PoolsValid()
      reads this, home.Keys, owner.Keys, route.backend, if route.backend == null then {} else set t | t in route.backend.targets
    {
      if KeyOf(route) in routes then Served()[KeyOf(route)]
      else Brought(route.backend)
    }

    // The caller brings a pool of its own, and must bring one for a known route.
    ghost predicate Offers(route: Route)
      reads this, route.backend
    {
      && (KeyOf(route) in routes ==> route.backend != null)
      && (route.backend != null ==>
            && route.backend.Valid() && route.backend !in home
            && (forall t :: t in route.backend.targets ==> t !in owner))
    }

    // Upsert: add a backend under the route's host and path, sharing the live pool.
    method Upsert(route: Route, target: BackendTarget?)
      requires Valid() && Offers(route) && (target != null ==> target !in owner)
      modifies this, exact, wildcard, exact.nodes, wildcard.nodes, home.Keys, owner.Keys
      modifies route.backend, if route.backend == null then {} else set t | t in route.backend.targets
      ensures Valid()
      ensures Stored(old(View()), old(Served()), View(), Served(), route, old(Base(route)), old(ViewOf(target)))
      ensures route.backend != null ==> routes[KeyOf(route)].backend.strategy == old(route.backend.strategy)
      ensures Deployed() == Runs.Apply(old(Deployed()),
                Runs.Upsert(routes[KeyOf(route)], old(Brought(route.backend)), old(ViewOf(target))))
    {
      hide KeyOf;
      hide T.Step;
      hide TreesValid;
      hide PoolsValid;
      hide Keyed;
      hide Offers;
      hide Served;
      hide Store;
      hide Base;
      hide Brought;
      hide Runs.Gain;
      hide Runs.Apply;
      hide Joined;
      GainedIs(route, ViewOf(target));
      Replace(route, target);
      ghost var updated := routes[KeyOf(route)];
      SamePlace(route, updated);
      Runs.UpsertIs(old(View()), old(Served()), updated, KeyOf(route), old(Brought(route.backend)), old(ViewOf(target)));
    }

    method Replace(route: Route, target: BackendTarget?)
      requires Valid() && Offers(route) && (target != null ==> target !in owner)
      modifies this, exact, wildcard, exact.nodes, wildcard.nodes, home.Keys, owner.Keys
      modifies route.backend, if route.backend == null then {} else set t | t in route.backend.targets
      ensures Valid()
      ensures Stored(old(View()), old(Served()), View(), Served(), route, old(Base(route)), old(ViewOf(target)))
      ensures route.backend != null ==> routes[KeyOf(route)].backend.strategy == old(route.backend.strategy)
    {
      hide KeyOf;
      hide SlotOf;
      hide Views;
      hide Put;
      hide Drop;
      hide Keyed;
      hide Stored;
      hide Joined;
      hide Served;
      hide TreesValid;
      hide Base;
      var key := KeyOf(route);
      var updated := PoolFor(key, route);
      if key in routes {
        HeldAt(key);
      }
      hide PoolsValid;
      hide Holds;
      Install(key, updated, target);
      StoredIs(old(View()), old(Served()), View(), Served(), route, old(Base(route)), old(ViewOf(target)), updated);
    }

    lemma GainedIs(route: Route, target: Option<T.Target>)
      requires PoolsValid()
      ensures Runs.Gain(Served(), KeyOf(route), Brought(route.backend), target)
           == Joined(Served(), KeyOf(route), Base(route), target)
    {
      hide KeyOf;
      hide T.Step;
      hide Brought;
      ServedKeys();
    }

    // The end of Upsert: add the target, store the route, put it into its tree.
    method Install(key: string, updated: Route, target: BackendTarget?)
      requires TreesValid() && PoolsValid()
      requires updated.backend != null && updated.backend.Valid()
      requires key in routes ==> routes[key].backend == updated.backend
      requires key !in routes ==> updated.backend !in home && forall t :: t in updated.backend.targets ==> t !in owner
      requires target != null ==> target !in owner
      modifies this`routes, this`home, this`owner
      modifies updated.backend`targets, updated.backend.targets
      modifies exact, wildcard, exact.nodes, wildcard.nodes
      ensures TreesValid() && PoolsValid() && routes == old(routes)[key := updated]
      ensures fresh(exact.nodes - old(exact.nodes)) && fresh(wildcard.nodes - old(wildcard.nodes))
      ensures exact.slots + wildcard.slots
           == Put(old(exact.slots) + old(wildcard.slots), SlotOf(updated), Some(updated))
      ensures updated.backend.strategy == old(updated.backend.strategy)
      ensures Served() == Joined(old(Served()), key, old(updated.backend.Contents()), old(ViewOf(target)))
    {
      hide SlotOf;
      hide Put;
      hide T.Step;
      hide Views;
      hide Forest.Valid;
      hide Joined;
      Register(key, updated, target);
      label Registered:
      AddToTree(updated);
      SameServed@Registered();
    }

    twostate lemma SameServed()
      requires old(PoolsValid()) && unchanged(this)
      requires forall p :: p in home ==> unchanged(p`targets) && unchanged(p`rrCounter)
      requires forall t :: t in owner ==> unchanged(t)
      ensures PoolsValid() && Served() == old(Served())
    {
      forall k | k in routes
        ensures Holds(k, routes[k].backend) && routes[k].backend.Contents() == old(routes[k].backend.Contents())
      {
        var pool := routes[k].backend;
        assert old(Holds(k, pool));
        assert pool in home && forall t :: t in pool.targets ==> t in owner;
        Untouched(pool);
      }
      ServedIs(old(Served()));
    }

    // The route to store: with the live pool if there is one, whose old route leaves
    // the trees, and with a fresh pool if the caller brought none.
    method PoolFor(key: string, route: Route) returns (updated: Route)
      requires Valid() && key == KeyOf(route) && Offers(route)
      modifies exact, wildcard, exact.nodes, wildcard.nodes
      modifies if key in routes then {routes[key].backend} else {}
      ensures TreesValid() && PoolsValid()
      ensures fresh(exact.nodes - old(exact.nodes)) && fresh(wildcard.nodes - old(wildcard.nodes))
      ensures exact.slots + wildcard.slots == Drop(old(View()), key).slots
      ensures updated == route.(id := key, backend := updated.backend)
      ensures updated.backend != null && updated.backend.Valid()
      ensures route.backend != null ==> updated.backend.strategy == old(route.backend.strategy)
      ensures key in routes ==> updated.backend == routes[key].backend
      ensures key !in routes && route.backend != null ==> updated.backend == route.backend
      ensures key !in routes ==>
                && updated.backend !in home && (forall t :: t in updated.backend.targets ==> t !in owner)
                && (if route.backend == null then fresh(updated.backend) && updated.backend.targets == []
                    else updated.backend == route.backend)
      ensures updated.backend.Contents() == old(Base(route)) && Served() == old(Served())
    {
      hide KeyOf;
      hide SlotOf;
      updated := route.(id := key);
      if key in routes && routes[key].backend != null {
        assert Holds(key, routes[key].backend);
        updated := updated.(backend := routes[key].backend);
        updated.backend.SetStrategy(route.backend.strategy);
        RemoveFromTrees(routes[key]);
      } else if updated.backend == null {
        var pool := new BackendPool(RoundRobin);
        updated := updated.(backend := pool);
      }
      SameServed();
    }

    // Register `updated` under key with one more target in its pool.
    method Register(key: string, updated: Route, target: BackendTarget?)
      requires PoolsValid()
      requires updated.backend != null && updated.backend.Valid()
      requires key in routes ==> routes[key].backend == updated.backend
      requires key !in routes ==> updated.backend !in home && forall t :: t in updated.backend.targets ==> t !in owner
      requires target != null ==> target !in owner
      modifies this`routes, this`home, this`owner
      modifies updated.backend`targets, updated.backend.targets
      ensures PoolsValid() && routes == old(routes)[key := updated]
      ensures updated.backend.strategy == old(updated.backend.strategy)
      ensures Served() == Joined(old(Served()), key, old(updated.backend.Contents()), old(ViewOf(target)))
    {
      hide T.Step;
      hide PoolsValid;
      var pool := updated.backend;
      if key in routes {
        HeldAt(key);
      }
      ServedKeys();
      ghost var before := Served();
      AddTarget(key, pool, target);
      Enter(key, updated, before);
    }

    method Enter(key: string, updated: Route, ghost before: map<string, seq<T.Target>>)
      requires updated.backend != null && updated.backend.Valid()
      requires updated.backend in home ==> home[updated.backend] == key
      requires forall t :: t in updated.backend.targets && t in owner ==> owner[t] == key
      requires before.Keys == routes.Keys
      requires forall k :: k in routes && k != key ==>
                 Holds(k, routes[k].backend) && routes[k].backend.Contents() == before[k]
      modifies this`routes, this`home, this`owner
      ensures PoolsValid() && routes == old(routes)[key := updated]
      ensures Served() == before[key := updated.backend.Contents()]
    {
      hide BackendPool.Contents;
      label Before:
      Adopt(key, updated);
      Untouched@Before(updated.backend);
      forall k | k in routes && k != key ensures routes[k].backend.Contents() == before[k] {
        Untouched@Before(routes[k].backend);
      }
      ServedIs(before[key := updated.backend.Contents()]);
    }

    // Add a target to the pool of `key`, which touches no other pool.
    method AddTarget(key: string, pool: BackendPool, target: BackendTarget?)
      requires PoolsValid() && pool.Valid()
      requires pool in home ==> home[pool] == key
      requires forall t :: t in pool.targets && t in owner ==> owner[t] == key
      requires target != null ==> target !in owner
      modifies pool`targets, pool.targets
      ensures pool.Valid()
      ensures forall t :: t in pool.targets && t in owner ==> owner[t] == key
      ensures forall k :: k in routes && k != key ==>
                Holds(k, routes[k].backend) && routes[k].backend.Contents() == old(routes[k].backend.Contents())
      ensures pool.Contents() == if target == null then old(pool.Contents())
                else T.Step(old(pool.Contents()), T.Add(old(target.View())))
    {
      hide T.Step;
      if target != null {
        pool.Add(target);
      }
      forall k | k in routes && k != key
        ensures Holds(k, routes[k].backend) && routes[k].backend.Contents() == old(routes[k].backend.Contents())
      {
        var other := routes[k].backend;
        assert old(Holds(k, other));
        Untouched(other);
      }
    }

    // Store `updated` under key.
    method Adopt(key: string, updated: Route)
      requires updated.backend != null && updated.backend.Valid()
      requires updated.backend in home ==> home[updated.backend] == key
      requires forall t :: t in updated.backend.targets && t in owner ==> owner[t] == key
      requires forall k :: k in routes && k != key ==> Holds(k, routes[k].backend)
      modifies this`routes, this`home, this`owner
      ensures PoolsValid() && routes == old(routes)[key := updated]
    {
      var pool := updated.backend;
      ghost var mine := map t | t in pool.targets :: key;
      routes := routes[key := updated];
      home := home[pool := key];
      owner := owner + mine;
      assert Holds(key, pool);
      forall k | k in routes && k != key ensures Holds(k, routes[k].backend) {
        assert old(Holds(k, routes[k].backend));
        assert forall t :: t in routes[k].backend.targets ==> t !in mine;
      }
    }

    lemma HeldAt(k: string)
      requires PoolsValid() && k in routes
      ensures Holds(k, routes[k].backend) && routes[k].backend.Valid()
    {
    }

    lemma ServedKeys()
      requires PoolsValid()
      ensures Served().Keys == routes.Keys
    {
    }

    lemma ServedIs(m: map<string, seq<T.Target>>)
      requires PoolsValid() && m.Keys == routes.Keys
      requires forall k :: k in routes ==> routes[k].backend.Contents() == m[k]
      ensures Served() == m
    {
      hide BackendPool.Contents;
    }

    // Remove deletes a route by its key.
    method Remove(id: string)
      requires Valid()
      modifies this`routes, exact, wildcard, exact.nodes, wildcard.nodes
      ensures Valid() && exact.nodes == old(exact.nodes) && wildcard.nodes == old(wildcard.nodes)
      ensures View() == Drop(old(View()), id)
      ensures Served() == old(Served()) - {id}
      ensures Deployed() == Runs.Apply(old(Deployed()), Runs.Remove(id))
    {
      hide SlotOf;
      hide Views;
      hide Put;
      hide Drop;
      hide Keyed;
      hide PoolsValid;
      hide Served;
      ghost var before := View();
      if id in routes {
        Unroute(id);
        Unlist(id);
        DropIs(before, id, View());
      } else {
        ServedKeys();
        DropNone(before, id);
      }
    }

    // The trees' half of Remove ...
    method Unroute(id: string)
      requires Valid() && id in routes
      modifies exact, wildcard, exact.nodes, wildcard.nodes
      ensures TreesValid() && exact.nodes == old(exact.nodes) && wildcard.nodes == old(wildcard.nodes)
      ensures View().slots == Put(old(View()).slots, SlotOf(routes[id]), None)
      ensures PoolsValid() && Served() == old(Served())
    {
      hide SlotOf;
      hide KeyOf;
      hide Put;
      hide Forest.Valid;
      hide BackendPool.Contents;
      RemoveFromTrees(routes[id]);
      SameServed();
    }

    // ... and the flat map's.
    method Unlist(id: string)
      requires PoolsValid() && id in routes
      modifies this`routes
      ensures PoolsValid() && routes == old(routes) - {id} && Served() == old(Served()) - {id}
    {
      hide BackendPool.Contents;
      ghost var before := Served();
      routes := routes - {id};
      forall k | k in routes ensures routes[k].backend.Contents() == before[k] {
        Untouched(routes[k].backend);
      }
      ServedIs(before - {id});
    }

    // RemoveByContainer drops a container's target everywhere, and routes left without any.
    method RemoveByContainer(c: string)
      requires Valid()
      modifies this`routes, home.Keys, exact, wildcard, exact.nodes, wildcard.nodes
      ensures Valid() && exact.nodes == old(exact.nodes) && wildcard.nodes == old(wildcard.nodes)
      ensures Drained(old(View()), old(Served()), View(), Served(), {}, c)
      ensures Deployed() == Runs.Apply(old(Deployed()), Runs.RemoveByContainer(c))
    {
      hide Drained;
      hide Drop;
      hide T.Step;
      hide TreesValid;
      hide PoolsValid;
      hide Served;
      hide DrainOne;
      hide Keyed;
      var todo := routes.Keys;
      ServedKeys();
      DrainedStart(View(), Served(), c);
      while todo != {}
        invariant Valid() && exact.nodes == old(exact.nodes) && wildcard.nodes == old(wildcard.nodes)
        invariant Drained(old(View()), old(Served()), View(), Served(), todo, c)
        invariant todo <= routes.Keys
      {
        var id :| id in todo;
        ServedKeys();
        DrainedNext(old(View()), old(Served()), View(), Served(), todo, c, id);
        Drain(id, c);
        todo := todo - {id};
      }
      Runs.DrainedStops(old(View()), old(Served()), View(), Served(), c);
      hide Runs.StopContainer;
    }

    // One iteration: the pool of `id` loses the container, and the route goes if it drained.
    method Drain(id: string, c: string)
      requires Valid() && id in routes
      modifies this`routes, home.Keys, exact, wildcard, exact.nodes, wildcard.nodes
      ensures Valid() && exact.nodes == old(exact.nodes) && wildcard.nodes == old(wildcard.nodes)
      ensures id in old(Served()) && (View(), Served()) == DrainOne(old(View()), old(Served()), id, c)
    {
      hide T.Step;
      hide Drop;
      hide TreesValid;
      hide Served;
      hide Keyed;
      hide PoolsValid;
      hide Holds;
      var route := routes[id];
      ServedKeys();
      HeldAt(id);
      ghost var s0, v0 := View(), Served();
      ghost var rest := T.Step(v0[id], T.Remove(c));
      if route.backend != null {
        var empty := TakeOut(id, c);
        assert View() == s0;
        if !empty {
          return;
        }
      }
      if route.backend == null && route.containerID != c {
        return;
      }
      Remove(id);
      assert v0[id := rest] - {id} == v0 - {id};
    }

    // The pool of `id` loses the container; is it empty now?
    method TakeOut(id: string, c: string) returns (empty: bool)
      requires Valid() && id in routes
      modifies routes[id].backend
      ensures Valid() && Served() == old(Served())[id := T.Step(old(Served())[id], T.Remove(c))]
      ensures empty <==> T.Step(old(Served())[id], T.Remove(c)) == []
    {
      hide T.Step;
      hide TreesValid;
      hide Keyed;
      hide Served;
      var pool := routes[id].backend;
      RemoveFromPool(id, pool, c);
      ServedAt(id);
      empty := pool.IsEmpty();
    }

    method RemoveFromPool(id: string, pool: BackendPool, c: string)
      requires PoolsValid() && id in routes && pool == routes[id].backend
      modifies pool
      ensures PoolsValid()
      ensures id in old(Served()) && Served() == old(Served())[id := T.Step(old(Served())[id], T.Remove(c))]
    {
      hide T.Step;
      ServedKeys();
      ServedAt(id);
      ghost var before := Served();
      assert forall k :: k in routes && k != id ==> Holds(k, routes[k].backend);
      pool.Remove(c);
      OthersUntouched(id);
      hide BackendPool.Contents;
      ServedIs(before[id := pool.Contents()]);
    }

    // SetBackendHealth puts an address in or out of rotation on every route.
    method SetBackendHealth(address: string, healthy: bool)
      requires Valid()
      modifies owner.Keys
      ensures Valid()
      ensures Served() == Everywhere(old(Served()), if healthy then T.MarkHealthy(address) else T.MarkUnhealthy(address))
    {
      hide T.Step;
      hide TreesValid;
      hide PoolsValid;
      hide Served;
      hide MarkedBut;
      hide Keyed;
      ghost var op := if healthy then T.MarkHealthy(address) else T.MarkUnhealthy(address);
      ServedKeys();
      MarkedNone(Served(), op);
      var todo := routes.Keys;
      while todo != {}
        invariant Valid() && todo <= routes.Keys
        invariant Served() == MarkedBut(old(Served()), todo, op)
      {
        var id :| id in todo;
        ServedKeys();
        MarkedNext(old(Served()), todo, op, id);
        MarkOne(id, address, healthy);
        todo := todo - {id};
      }
    }

    method MarkOne(id: string, address: string, healthy: bool)
      requires Valid() && id in routes
      requires id in Served()
      modifies owner.Keys
      ensures Valid()
      ensures Served() == old(Served())[id := T.Step(old(Served())[id],
                if healthy then T.MarkHealthy(address) else T.MarkUnhealthy(address))]
    {
      hide T.Step;
      hide TreesValid;
      hide Keyed;
      hide Served;
      ServedAt(id);
      MarkPool(id, routes[id].backend, address, healthy);
    }

    method MarkPool(id: string, pool: BackendPool, address: string, healthy: bool)
      requires PoolsValid() && id in routes && pool == routes[id].backend
      modifies pool.targets
      ensures PoolsValid()
      ensures id in old(Served()) && Served() == old(Served())[id := T.Step(old(Served())[id],
                if healthy then T.MarkHealthy(address) else T.MarkUnhealthy(address))]
    {
      hide T.Step;
      ServedKeys();
      ServedAt(id);
      ghost var before := Served();
      pool.Mark(address, healthy);
      OthersUntouched(id);
      hide BackendPool.Contents;
      ServedIs(before[id := pool.Contents()]);
    }

    // Changing one pool and its own targets leaves every other pool as it was.
    twostate lemma OthersUntouched(id: string)
      requires old(PoolsValid()) && unchanged(this) && id in routes
      requires forall k :: k in routes && k != id ==> unchanged(routes[k].backend)
      requires forall t :: t in owner && owner[t] != id ==> unchanged(t)
      ensures forall k :: k in routes && k != id ==>
                Holds(k, routes[k].backend) && routes[k].backend.Contents() == old(routes[k].backend.Contents())
    {
      forall k | k in routes && k != id
        ensures Holds(k, routes[k].backend) && routes[k].backend.Contents() == old(routes[k].backend.Contents())
      {
        var pool := routes[k].backend;
        assert old(Holds(k, pool)) && unchanged(pool);
        assert forall t :: t in pool.targets ==> t in owner && owner[t] != id;
        Untouched(pool);
      }
    }

    lemma ServedAt(id: string)
      requires PoolsValid() && id in routes
      ensures Holds(id, routes[id].backend) && id in Served()
      ensures Served()[id] == Views(routes[id].backend.targets)
    {
    }

    // BackendAddresses lists every distinct address once.
    method BackendAddresses() returns (addrs: seq<string>)
      requires Valid()
      ensures SetOf(addrs) == Addresses(Served())
      ensures forall i, j :: 0 <= i < j < |addrs| ==> addrs[i] != addrs[j]
    {
      hide AddressesUnder;
      hide AddressSet;
      hide TreesValid;
      hide PoolsValid;
      hide Served;
      hide Keyed;
      hide SetOf;
      hide Views;
      addrs := [];
      ServedKeys();
      var todo := routes.Keys;
      ghost var v := Served();
      NoAddresses(v);
      assert SetOf(addrs) == {} by { Nothing(addrs); }
      assert v.Keys - todo == {};
      while todo != {}
        invariant todo <= routes.Keys
        invariant SetOf(addrs) == AddressesUnder(v, v.Keys - todo)
        invariant forall i, j :: 0 <= i < j < |addrs| ==> addrs[i] != addrs[j]
      {
        var id :| id in todo;
        ServedAt(id);
        AddressesGrow(v, v.Keys - todo, id);
        addrs := AppendNew(addrs, routes[id].backend.targets);
        assert v.Keys - (todo - {id}) == v.Keys - todo + {id};
        todo := todo - {id};
      }
      assert v.Keys - todo == v.Keys;
    }

    // The inner loop of BackendAddresses.
    static method AppendNew(seen: seq<string>, ts: seq<BackendTarget>) returns (addrs: seq<string>)
      requires forall i, j :: 0 <= i < j < |seen| ==> seen[i] != seen[j]
      ensures SetOf(addrs) == SetOf(seen) + AddressSet(Views(ts))
      ensures forall i, j :: 0 <= i < j < |addrs| ==> addrs[i] != addrs[j]
    {
      addrs := seen;
      for n := 0 to |ts|
        invariant SetOf(addrs) == SetOf(seen) + AddressSet(Views(ts)[..n])
        invariant forall i, j :: 0 <= i < j < |addrs| ==> addrs[i] != addrs[j]
      {
        AddressSetNext(Views(ts), n);
        SetOfAppend(addrs, ts[n].address);
        if ts[n].address !in addrs {
          addrs := addrs + [ts[n].address];
        }
      }
      assert Views(ts)[..|ts|] == Views(ts);
    }
  }
}
