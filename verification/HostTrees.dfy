// internal/router/table.go: one of the table's two maps from hosts to path trees
// (`exact` and `wildcard` have the same shape and the same upkeep).
module HostTrees {
  import opened Options
  import opened Paths
  import opened Hosts
  import opened Routes
  import opened Radix
  import opened TableModel

  class Forest {
    var trees: map<string, RadixTree>

    // All nodes of all trees, and the contents of all trees together.
    ghost var nodes: set<RadixNode>
    ghost var slots: map<Slot, Route>

    ghost predicate Sound(tree: RadixTree, m: map<string, Route>)
      reads this, nodes
    {
      && tree.root in nodes && tree.root in tree.root.Repr && tree.root.Repr <= nodes
      && tree.Valid() && tree.Routes() == m
    }

    ghost predicate Valid()
      reads this, nodes
    {
      && (forall h :: h in trees ==> Sound(trees[h], HostRoutes(slots, h)))
      && (forall g, h :: g in trees && h in trees && g != h ==> trees[g].root.Repr !! trees[h].root.Repr)
      && (forall s :: s in slots ==> s.host in trees)
    }

    constructor ()
      ensures Valid() && trees == map[] && slots == map[] && nodes == {}
    {
      trees, slots, nodes := map[], map[], {};
    }

    lemma NoRoutes(host: string)
      requires Valid() && host !in trees
      ensures HostRoutes(slots, host) == map[]
    {
    }

    // Create the tree of a host when it is missing.
    method EnsureTree(host: string)
      requires Valid()
      modifies this`trees, this`nodes, this`slots
      ensures Valid() && fresh(nodes - old(nodes)) && old(nodes) <= nodes && slots == old(slots)
      ensures trees.Keys == old(trees).Keys + {host}
    {
      hide HostRoutes;
      hide Rooted;
      hide RadixTree.Valid;
      if host !in trees {
        var tree := new RadixTree();
        NoRoutes(host);
        RootOwned(tree);
        trees := trees[host := tree];
        forall h | h in trees && h != host ensures Sound(trees[h], HostRoutes(slots, h)) {
          assert old(Sound(trees[h], HostRoutes(slots, h)));
        }
        assert AllBut(host, slots);
        hide AllBut;
        Settle(host, slots);
      }
    }

    // The half of addToTree below the choice of map.
    method Insert(host: string, path: string, route: Route)
      requires Valid()
      modifies this, nodes
      ensures Valid() && fresh(nodes - old(nodes))
      ensures slots == old(slots)[Slot(host, NormalizePath(path)) := route]
    {
      hide HostRoutes;
      hide Rooted;
      hide NormalizePath;
      hide RadixTree.Valid;
      EnsureTree(host);
      ghost var s := Slot(host, NormalizePath(path));
      InsertAt(trees[host], s, path, route);
    }

    // The slots of all hosts, with one slot set or dropped.
    static lemma SlotPut(before: map<Slot, Route>, s: Slot, r: Option<Route>)
      ensures var m := Put(before, s, r);
              && HostRoutes(m, s.host) == Put(HostRoutes(before, s.host), s.path, r)
              && (forall h :: h != s.host ==> HostRoutes(m, h) == HostRoutes(before, h))
              && (forall t :: t in m ==> t in before || t == s)
    {
      forall h { HostRoutesPut(before, s, r, h); }
      hide HostRoutes;
    }

    static lemma RootOwned(tree: RadixTree)
      requires tree.Valid()
      ensures tree.root in tree.root.Repr
    {
    }

    // Every tree but that of `host` is sound, and none shares a node with another.
    ghost predicate AllBut(host: string, m: map<Slot, Route>)
      requires host in trees
      reads this, nodes, trees[host].root
    {
      && (forall h :: h in trees && h != host ==>
            Sound(trees[h], HostRoutes(m, h)) && trees[h].root.Repr !! trees[host].root.Repr)
      && (forall g, h :: g in trees && h in trees && g != h && g != host && h != host ==>
            trees[g].root.Repr !! trees[h].root.Repr)
    }

    method InsertAt(tree: RadixTree, ghost s: Slot, path: string, route: Route)
      requires Valid() && s.host in trees && trees[s.host] == tree && s.path == NormalizePath(path)
      modifies this`nodes, this`slots, nodes
      ensures Valid() && fresh(nodes - old(nodes))
      ensures slots == old(slots)[s := route]
    {
      hide HostRoutes;
      hide NormalizePath;
      ghost var m := slots[s := route];
      assert m == Put(slots, s, Some(route));
      SlotPut(slots, s, Some(route));
      hide Put;
      InsertInto(s.host, tree, m, path, route);
      hide AllBut;
      Settle(s.host, m);
    }

    // One tree grows, and the others are left alone.
    method InsertInto(ghost host: string, tree: RadixTree, ghost m: map<Slot, Route>, path: string, route: Route)
      requires Valid() && host in trees && trees[host] == tree
      requires forall h :: h in trees && h != host ==> HostRoutes(m, h) == HostRoutes(slots, h)
      requires HostRoutes(m, host) == Put(HostRoutes(slots, host), NormalizePath(path), Some(route))
      modifies nodes
      ensures AllBut(host, m)
      ensures tree.root in tree.root.Repr && fresh(tree.root.Repr - old(nodes))
      ensures tree.Valid() && tree.Routes() == HostRoutes(m, host)
    {
      hide HostRoutes;
      hide Rooted;
      hide NormalizePath;
      hide Put;
      hide RadixTree.Valid;
      assert Sound(tree, HostRoutes(slots, host));
      tree.Insert(path, Some(route));
      RootOwned(tree);
      forall h | h in trees && h != host
        ensures Sound(trees[h], HostRoutes(m, h)) && trees[h].root.Repr !! tree.root.Repr
      {
        assert old(Sound(trees[h], HostRoutes(slots, h)));
      }
    }

    // Take the nodes of the grown tree in.
    ghost method Settle(host: string, m: map<Slot, Route>)
      requires host in trees && AllBut(host, m)
      requires trees[host].root in trees[host].root.Repr
      requires trees[host].Valid() && trees[host].Routes() == HostRoutes(m, host)
      requires forall s :: s in m ==> s.host in trees
      modifies this`nodes, this`slots
      ensures Valid() && slots == m && nodes == old(nodes) + trees[host].root.Repr
    {
      hide HostRoutes;
      hide Rooted;
      hide RadixTree.Valid;
      nodes := nodes + trees[host].root.Repr;
      slots := m;
      forall h | h in trees && h != host ensures Sound(trees[h], HostRoutes(m, h)) {
        assert old(Sound(trees[h], HostRoutes(m, h)));
      }
    }

    // The half of removeFromTrees below the choice of map.
    method Delete(host: string, path: string)
      requires Valid()
      modifies this, nodes
      ensures Valid() && nodes == old(nodes)
      ensures slots == Put(old(slots), Slot(host, NormalizePath(path)), None)
    {
      hide HostRoutes;
      hide Rooted;
      hide NormalizePath;
      ghost var s := Slot(host, NormalizePath(path));
      if host in trees {
        DeleteAt(trees[host], s, path);
        var empty := trees[host].IsEmpty();
        if empty {
          Forget(host);
        }
      }
    }

    // Drop a host whose tree holds no route.
    method Forget(host: string)
      requires Valid() && host in trees && trees[host].Routes() == map[]
      modifies this`trees
      ensures Valid() && trees == old(trees) - {host}
    {
      hide HostRoutes;
      hide Rooted;
      hide RadixTree.Valid;
      assert Sound(trees[host], HostRoutes(slots, host));
      NoSlots(host);
      trees := trees - {host};
    }

    lemma NoSlots(host: string)
      requires HostRoutes(slots, host) == map[]
      ensures forall s :: s in slots ==> s.host != host
    {
      forall s | s in slots ensures s.host != host {
        HostRoutesGet(slots, host, s.path);
      }
    }

    method DeleteAt(tree: RadixTree, ghost s: Slot, path: string)
      requires Valid() && s.host in trees && trees[s.host] == tree && s.path == NormalizePath(path)
      modifies this`nodes, this`slots, nodes
      ensures Valid() && nodes == old(nodes) && slots == Put(old(slots), s, None)
    {
      hide HostRoutes;
      hide NormalizePath;
      ghost var m := Put(slots, s, None);
      SlotPut(slots, s, None);
      assert s !in m;
      hide Put;
      DeleteFrom(s.host, tree, m, path);
      hide AllBut;
      Settle(s.host, m);
    }

    // One tree shrinks, and the others are left alone.
    method DeleteFrom(ghost host: string, tree: RadixTree, ghost m: map<Slot, Route>, path: string)
      requires Valid() && host in trees && trees[host] == tree
      requires forall h :: h in trees && h != host ==> HostRoutes(m, h) == HostRoutes(slots, h)
      requires HostRoutes(m, host) == Put(HostRoutes(slots, host), NormalizePath(path), None)
      modifies nodes
      ensures AllBut(host, m)
      ensures tree.root in tree.root.Repr && tree.root.Repr <= nodes
      ensures tree.Valid() && tree.Routes() == HostRoutes(m, host)
    {
      hide HostRoutes;
      hide Rooted;
      hide NormalizePath;
      hide Put;
      hide RadixTree.Valid;
      assert Sound(tree, HostRoutes(slots, host));
      tree.Delete(path);
      RootOwned(tree);
      forall h | h in trees && h != host
        ensures Sound(trees[h], HostRoutes(m, h)) && trees[h].root.Repr !! tree.root.Repr
      {
        assert old(Sound(trees[h], HostRoutes(slots, h)));
      }
    }

    // The best route of one host, if it has a tree.
    method Match(host: string, path: string) returns (best: Option<Route>)
      requires Valid()
      ensures best == LongestMatch(HostRoutes(slots, host), NormalizePath(path))
      ensures best.Some? ==> host in trees
    {
      if host in trees {
        best := trees[host].Match(path);
      } else {
        NoRoutes(host);
        best := None;
        LongestMatchIsLongest(HostRoutes(slots, host), NormalizePath(path));
      }
    }
  }
}
