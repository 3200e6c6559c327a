// cmd/dockrouter/main.go: the route sink and the health callback, which keep the route
// table and the health checker in step.
module Sink {
  import opened Options
  import opened Hosts
  import T = Targets
  import opened Backend
  import opened Routes
  import opened TableModel
  import opened RouteTable
  import opened Health
  import opened Checking
  import opened Discovery

  // The route AddRoute builds for a container.
  function RouteFor(info: Info, pool: BackendPool?): Route {
    Route(RouteKey(info.config.host, info.config.path), info.config.host, info.config.path, pool, info.id)
  }

  function NewTarget(info: Info): T.Target {
    T.Target(info.address, info.id, info.config.weight, info.healthy, 0, 0, 0, 0)
  }

  // What a container's labels must say for its route to be found: a validated host has no port
  // and is there, and a validated path is covered as it is written.
  lemma ValidIsFound(info: Info, pool: BackendPool?, v: string, path: string)
    requires info.config.enabled && ValidConfig(info.config) && !IsWildcard(NormalizeHost(info.config.host))
    requires Names(v, info.config.host)
    requires var q := info.config.path; q == "" || (q <= path && q[|q| - 1] != '/')
    ensures Asked(RouteFor(info, pool), v, path)
  {
    hide NormalizeHost;
    hide Names;
    hide IsWildcard;
  }

  // The target AddRoute leaves is the container's as it was found, and in rotation exactly if
  // it was found healthy. Its statistics are those of the address so far.
  lemma AddedAsFound(ts: seq<T.Target>, info: Info)
    requires T.Distinct(ts)
    ensures var us, i := T.Step(ts, T.Add(NewTarget(info))), T.AddressIndex(ts, info.address);
            && i < |us| && us[i].address == info.address && us[i].containerID == info.id
            && us[i].weight == info.config.weight && us[i].healthy == info.healthy
            && us[i].requests == (if i < |ts| then ts[i].requests else 0)
            && us[i].failures == (if i < |ts| then ts[i].failures else 0)
            && us[i].activeConns == (if i < |ts| then ts[i].activeConns else 0)
            && us[i].consecFail == (if i < |ts| then ts[i].consecFail else 0)
  {
    hide T.HealthyCount;
  }

  // The targets under a key, none if the key is new.
  ghost function Under(v: map<string, seq<T.Target>>, key: string): seq<T.Target> {
    if key in v then v[key] else []
  }

  lemma AddAddress(v: map<string, seq<T.Target>>, key: string, t: T.Target)
    ensures Addresses(v[key := T.Step(Under(v, key), T.Add(t))]) == Addresses(v) + {t.address}
  {
    var ts := Under(v, key);
    var us := T.Step(ts, T.Add(t));
    var w := v[key := us];
    AddressesOfAdd(ts, t);
    forall a ensures a in Addresses(w) <==> a in Addresses(v) + {t.address} {
      if k, i :| k in v && 0 <= i < |v[k]| && v[k][i].address == a {
        if k == key {
          assert a in AddressSet(us);
          var j :| 0 <= j < |us| && us[j].address == a;
          assert w[key][j].address == a;
        } else {
          assert w[k][i].address == a;
        }
      }
      if a == t.address {
        var j :| 0 <= j < |us| && us[j].address == a;
        assert w[key][j].address == a;
      }
      if k, i :| k in w && 0 <= i < |w[k]| && w[k][i].address == a {
        if k == key {
          assert a in AddressSet(us);
        }
      }
    }
  }

  lemma AddressesOfAdd(ts: seq<T.Target>, t: T.Target)
    ensures AddressSet(T.Step(ts, T.Add(t))) == AddressSet(ts) + {t.address}
  {
    var us := T.Step(ts, T.Add(t));
    var i := T.AddressIndex(ts, t.address);
    assert forall j :: 0 <= j < |ts| ==> us[j].address == ts[j].address;
    if i == |ts| {
      assert us[|ts|].address == t.address;
    } else {
      assert ts[i].address == t.address;
    }
    forall a | a in AddressSet(ts) ensures a in AddressSet(us) {
      var j :| 0 <= j < |ts| && ts[j].address == a;
      assert us[j].address == a;
    }
  }

  lemma MarkInPlace(ts: seq<T.Target>, op: T.Op)
    requires op.MarkHealthy? || op.MarkUnhealthy?
    ensures var us := T.Step(ts, op); |us| == |ts| && forall i :: 0 <= i < |ts| ==> us[i].address == ts[i].address
  {
  }

  // Marking a backend moves no address.
  lemma MarkKeepsAddresses(v: map<string, seq<T.Target>>, op: T.Op)
    requires op.MarkHealthy? || op.MarkUnhealthy?
    ensures Addresses(Everywhere(v, op)) == Addresses(v)
  {
    hide T.Step;
    var w: map<string, seq<T.Target>> := Everywhere(v, op);
    forall k | k in v ensures |w[k]| == |v[k]| && forall i :: 0 <= i < |v[k]| ==> w[k][i].address == v[k][i].address {
      MarkInPlace(v[k], op);
    }
    forall a | a in Addresses(v) ensures a in Addresses(w) {
      var k, i :| k in v && 0 <= i < |v[k]| && v[k][i].address == a;
      assert w[k][i].address == a;
    }
    forall a | a in Addresses(w) ensures a in Addresses(v) {
      var k, i :| k in w && 0 <= i < |w[k]| && w[k][i].address == a;
      assert v[k][i].address == a;
    }
  }

  lemma RemoveShrinks(ts: seq<T.Target>, c: string)
    ensures AddressSet(T.Step(ts, T.Remove(c))) <= AddressSet(ts)
  {
    var us, j := T.Step(ts, T.Remove(c)), T.ContainerIndex(ts, c);
    assert forall i :: 0 <= i < |us| ==> us[i] == ts[if i < j then i else i + 1];
  }

  // Draining pools adds no address.
  lemma DrainedShrinks(r0: map<string, Route>, v0: map<string, seq<T.Target>>,
                       r: map<string, Route>, v: map<string, seq<T.Target>>, c: string)
    requires DrainedRoutes(r0, v0, r, v, {}, c)
    ensures Addresses(v) <= Addresses(v0)
  {
    forall a | a in Addresses(v) ensures a in Addresses(v0) {
      var k, i :| k in v && 0 <= i < |v[k]| && v[k][i].address == a;
      assert k in r && k in r0 && v[k] == T.Step(v0[k], T.Remove(c));
      assert a in AddressSet(v[k]);
      RemoveShrinks(v0[k], c);
    }
  }

  class RouteSink {
    const table: Table
    const checker: Checker

    ghost predicate Valid()
      reads table, table.home.Keys, table.exact, table.wildcard, table.exact.nodes, table.wildcard.nodes
      reads table.owner.Keys, checker
    {
      && table.Valid() && checker.Valid()
      && checker.checks.Keys == Addresses(table.Served())
    }

    constructor (table: Table, checker: Checker)
      requires table.Valid() && checker.Valid() && checker.checks.Keys == Addresses(table.Served())
      ensures Valid() && this.table == table && this.checker == checker
    {
      hide Addresses;
      hide Table.Valid;
      this.table, this.checker := table, checker;
    }

    // AddRoute: serve the container and have it probed.
    method AddRoute(info: Info)
      requires Valid()
      modifies table, table.exact, table.wildcard, table.exact.nodes, table.wildcard.nodes
      modifies table.home.Keys, table.owner.Keys, checker`checks, checker.checks.Values
      ensures Valid()
      ensures checker.checks.Keys == old(checker.checks.Keys) + {info.address}
      ensures var check, config := checker.checks[info.address], info.config.check;
              && check.interval == config.interval
              && check.threshold == config.threshold && check.recovery == config.recovery
      ensures var key := RouteKey(info.config.host, info.config.path);
              table.Served() == old(table.Served())[key := T.Step(Under(old(table.Served()), key), T.Add(NewTarget(info)))]
      ensures var key := RouteKey(info.config.host, info.config.path);
              && key in table.routes && var r := table.routes[key];
                 && r.host == info.config.host && r.pathPrefix == info.config.path && r.containerID == info.id
                 && r.backend != null && r.backend.strategy == info.config.loadBalance
    {
      hide T.Step;
      hide AddressesUnder;
      hide Addresses;
      hide Table.Valid;
      hide Table.PoolsValid;
      hide Table.Served;
      hide Table.TreesValid;
      hide TableModel.Keyed;
      hide NewTarget;
      hide RouteKey;
      hide Under;
      Serve(info);
      ghost var pool := table.routes[RouteKey(info.config.host, info.config.path)].backend;
      assert pool.strategy == info.config.loadBalance;
      checker.Register(info.address, info.config.check);
    }

    // The table's half of AddRoute.
    method Serve(info: Info)
      requires table.Valid()
      modifies table, table.exact, table.wildcard, table.exact.nodes, table.wildcard.nodes
      modifies table.home.Keys, table.owner.Keys
      ensures table.Valid()
      ensures Addresses(table.Served()) == old(Addresses(table.Served())) + {info.address}
      ensures var key := RouteKey(info.config.host, info.config.path);
              table.Served() == old(table.Served())[key := T.Step(Under(old(table.Served()), key), T.Add(NewTarget(info)))]
      ensures var key := RouteKey(info.config.host, info.config.path);
              && key in table.routes && var r := table.routes[key];
                 && r.host == info.config.host && r.pathPrefix == info.config.path && r.containerID == info.id
                 && r.backend != null && r.backend.strategy == info.config.loadBalance
    {
      hide T.Step;
      hide AddressesUnder;
      hide Table.TreesValid;
      hide Table.PoolsValid;
      hide Table.Served;
      hide TableModel.Keyed;
      hide Store;
      hide RouteKey;
      hide SlotOf;
      hide Table.Deployed;
      var pool := new BackendPool(info.config.loadBalance);
      var target := new BackendTarget(info.address, info.id, info.config.weight, info.healthy);
      var route := RouteFor(info, pool);
      table.ServedKeys();
      AddAddress(table.Served(), KeyOf(route), NewTarget(info));
      assert pool.Contents() == [];
      table.Upsert(route, target);
      table.HeldAt(KeyOf(route));
    }

    // RemoveRoute: stop serving the container, and stop probing what nobody serves.
    method RemoveRoute(id: string)
      requires Valid()
      modifies table, table.exact, table.wildcard, table.exact.nodes, table.wildcard.nodes
      modifies table.home.Keys, checker`checks
      ensures Valid()
      ensures checker.checks.Keys == old(checker.checks.Keys) * Addresses(table.Served())
      ensures DrainedRoutes(old(table.routes), old(table.Served()), table.routes, table.Served(), {}, id)
    {
      hide Addresses;
      hide DrainedRoutes;
      hide Table.TreesValid;
      hide Table.PoolsValid;
      hide Table.Served;
      hide TableModel.Keyed;
      Withdraw(id);
      var stale := StaleHealthTargets();
      checker.UnregisterAll(stale);
    }

    // The table's half of RemoveRoute.
    method Withdraw(id: string)
      requires table.Valid()
      modifies table, table.exact, table.wildcard, table.exact.nodes, table.wildcard.nodes
      modifies table.home.Keys
      ensures table.Valid()
      ensures Addresses(table.Served()) <= old(Addresses(table.Served()))
      ensures DrainedRoutes(old(table.routes), old(table.Served()), table.routes, table.Served(), {}, id)
    {
      hide Addresses;
      hide DrainedRoutes;
      hide Cleared;
      hide Agree;
      hide Table.TreesValid;
      hide Table.PoolsValid;
      hide Table.Served;
      hide TableModel.Keyed;
      table.RemoveByContainer(id);
      DrainedShrinks(old(table.routes), old(table.Served()), table.routes, table.Served(), id);
    }

    // staleHealthTargets: probed addresses that no route serves any more.
    method StaleHealthTargets() returns (stale: seq<string>)
      requires table.Valid()
      ensures SetOf(stale) == checker.checks.Keys - Addresses(table.Served())
    {
      hide Addresses;
      hide Table.TreesValid;
      hide Table.PoolsValid;
      hide Table.Served;
      hide TableModel.Keyed;
      var live := table.BackendAddresses();
      stale := [];
      var todo := checker.checks.Keys;
      while todo != {}
        invariant todo <= checker.checks.Keys
        invariant SetOf(stale) == checker.checks.Keys - todo - SetOf(live)
      {
        var a :| a in todo;
        todo := todo - {a};
        SetOfAppend(stale, a);
        if a !in live {
          stale := stale + [a];
        }
      }
    }

    // A finished probe. The check may have been unregistered in the meantime, and the
    // callback for the state it reports runs after the lock is released.
    method Probed(check: HealthCheck, ok: bool) returns (notify: Option<HealthState>)
      requires Valid()
      modifies check`threshold, check`state, check`consecFail, check`consecPass
      ensures Valid() && check.View() == Probe(old(check.View()), ok)
      ensures notify == if check.state == old(check.state) then None else Some(check.state)
      ensures table.Served() == old(table.Served())
    {
      hide Probe;
      hide AddressesUnder;
      hide Table.TreesValid;
      hide TableModel.Keyed;
      hide Table.PoolsValid;
      hide Table.Served;
      notify := check.CheckOne(ok);
    }

    // The callback: mark the address wherever it is served.
    method Notified(target: string, state: HealthState)
      requires Valid()
      modifies table.owner.Keys
      ensures Valid()
      ensures table.Served() == Everywhere(old(table.Served()),
                if InRotation(state) then T.MarkHealthy(target) else T.MarkUnhealthy(target))
    {
      hide T.Step;
      hide AddressesUnder;
      hide Everywhere;
      hide Table.TreesValid;
      hide TableModel.Keyed;
      hide Table.PoolsValid;
      hide Table.Served;
      var healthy := InRotation(state);
      MarkKeepsAddresses(table.Served(), if healthy then T.MarkHealthy(target) else T.MarkUnhealthy(target));
      table.SetBackendHealth(target, healthy);
    }
  }
}
