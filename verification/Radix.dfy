// internal/router/radix.go: a mutable radix tree refining a plain map from paths to routes.
module Radix {
  import opened Options
  import opened Paths
  import opened Routes

  // What a parent knows about one child: the label on the edge and the routes
  // below it, keyed by what remains of the path after that label.
  datatype Edge = Edge(prefix: string, sub: map<string, Route>)

  ghost predicate WellFormed(es: seq<Edge>) {
    && (forall i :: 0 <= i < |es| ==> es[i].prefix != "")
    && (forall i, j :: 0 <= i < j < |es| ==> es[i].prefix[0] != es[j].prefix[0])
  }

  // The route an edge contributes for the suffix s.
  function Reach(e: Edge, s: string): Option<Route> {
    if e.prefix <= s then Get(e.sub, s[|e.prefix|..]) else None
  }

  ghost predicate SameFirst(e: Edge, s: string) {
    e.prefix != "" && s != "" && e.prefix[0] == s[0]
  }

  // m is the map spelled out by a node with its own route and its outgoing edges.
  ghost predicate Represents(m: map<string, Route>, own: Option<Route>, es: seq<Edge>) {
    && Get(m, "") == own
    && (forall i, s :: 0 <= i < |es| && SameFirst(es[i], s) ==> Get(m, s) == Reach(es[i], s))
    && (forall s :: s != "" && s in m ==> exists i :: 0 <= i < |es| && SameFirst(es[i], s))
  }

  lemma PutOwn(m: map<string, Route>, own: Option<Route>, es: seq<Edge>, r: Option<Route>)
    requires Represents(m, own, es)
    ensures Represents(Put(m, "", r), r, es)
  {
    var m' := Put(m, "", r);
    forall s | s != "" ensures Get(m', s) == Get(m, s) {}
    forall s | s != "" && s in m' ensures exists i :: 0 <= i < |es| && SameFirst(es[i], s) {
      assert s in m;
    }
  }

  // Replacing one edge by another with the same first byte that differs only at p.
  lemma ReplaceEdge(m: map<string, Route>, own: Option<Route>, es: seq<Edge>, i: nat, e: Edge,
                    p: string, r: Option<Route>)
    requires WellFormed(es) && Represents(m, own, es) && i < |es|
    requires SameFirst(e, es[i].prefix) && SameFirst(e, p)
    requires forall s :: SameFirst(e, s) ==> Reach(e, s) == if s == p then r else Reach(es[i], s)
    ensures WellFormed(es[i := e]) && Represents(Put(m, p, r), own, es[i := e])
  {
    var m', es' := Put(m, p, r), es[i := e];
    forall s | s != p ensures Get(m', s) == Get(m, s) {}
    assert Get(m', p) == r;
    forall j, s | 0 <= j < |es'| && SameFirst(es'[j], s) ensures Get(m', s) == Reach(es'[j], s) {
      if j == i {
        assert SameFirst(es[i], s);
      } else {
        assert SameFirst(es[j], s);
        assert es[j].prefix[0] != es[i].prefix[0];
        assert s != p;
      }
    }
    forall s | s != "" && s in m' ensures exists j :: 0 <= j < |es'| && SameFirst(es'[j], s) {
      if s == p {
        assert SameFirst(es'[i], s);
      } else {
        assert s in m;
        var j :| 0 <= j < |es| && SameFirst(es[j], s);
        assert SameFirst(es'[j], s);
      }
    }
  }

  lemma AddEdge(m: map<string, Route>, own: Option<Route>, es: seq<Edge>, p: string, r: Option<Route>)
    requires WellFormed(es) && Represents(m, own, es) && p != ""
    requires forall i :: 0 <= i < |es| ==> es[i].prefix[0] != p[0]
    ensures WellFormed(es + [Edge(p, Put(map[], "", r))])
    ensures Represents(Put(m, p, r), own, es + [Edge(p, Put(map[], "", r))])
  {
    var m', e := Put(m, p, r), Edge(p, Put(map[], "", r));
    var es' := es + [e];
    forall s | s != "" && s in m ensures s[0] != p[0] {
      var k :| 0 <= k < |es| && SameFirst(es[k], s);
    }
    forall s | s != p ensures Get(m', s) == Get(m, s) {}
    assert Get(m', p) == r;
    forall j, s | 0 <= j < |es'| && SameFirst(es'[j], s) ensures Get(m', s) == Reach(es'[j], s) {
      if j < |es| {
        assert SameFirst(es[j], s);
      } else if s == p {
        assert s[|p|..] == "";
      } else if p <= s {
        assert s == p + s[|p|..];
      }
    }
    forall s | s != "" && s in m' ensures exists j :: 0 <= j < |es'| && SameFirst(es'[j], s) {
      if s == p {
        assert SameFirst(es'[|es|], s);
      } else {
        var j :| 0 <= j < |es| && SameFirst(es[j], s);
        assert SameFirst(es'[j], s);
      }
    }
  }

  lemma PutReach(e: Edge, p: string, r: Option<Route>)
    requires e.prefix <= p
    ensures forall s :: Reach(Edge(e.prefix, Put(e.sub, p[|e.prefix|..], r)), s)
                        == if s == p then r else Reach(e, s)
  {
    var t := p[|e.prefix|..];
    forall s ensures Reach(Edge(e.prefix, Put(e.sub, t, r)), s) == if s == p then r else Reach(e, s) {
      if e.prefix <= s {
        assert s == e.prefix + s[|e.prefix|..] && p == e.prefix + t;
      }
    }
  }

  // An edge below which at most the empty suffix is bound leads to its own key only.
  lemma BareEdge(m: map<string, Route>, own: Option<Route>, es: seq<Edge>, i: nat, s: string)
    requires Represents(m, own, es) && i < |es|
    requires forall t :: t in es[i].sub ==> t == ""
    requires s in m && SameFirst(es[i], s)
    ensures s == es[i].prefix
  {
    assert Get(m, s) == Reach(es[i], s);
    assert s == es[i].prefix + s[|es[i].prefix|..];
  }

  // Dropping such an edge.
  lemma DropEdge(m: map<string, Route>, own: Option<Route>, es: seq<Edge>, i: nat)
    requires WellFormed(es) && Represents(m, own, es) && i < |es|
    requires forall t :: t in es[i].sub ==> t == ""
    ensures WellFormed(es[..i] + es[i + 1..])
    ensures Represents(Put(m, es[i].prefix, None), own, es[..i] + es[i + 1..])
  {
    var p := es[i].prefix;
    var m', es' := m - {p}, es[..i] + es[i + 1..];
    assert forall j :: 0 <= j < |es'| ==> es'[j] == es[if j < i then j else j + 1];
    hide Reach;
    forall j, s | 0 <= j < |es'| && SameFirst(es'[j], s) ensures Get(m', s) == Reach(es'[j], s) {
      var k := if j < i then j else j + 1;
      assert es'[j] == es[k];
      assert SameFirst(es[k], s) && es[k].prefix[0] != p[0];
      assert Get(m', s) == Get(m, s);
    }
    forall s | s != "" && s in m' ensures exists j :: 0 <= j < |es'| && SameFirst(es'[j], s) {
      var j :| 0 <= j < |es| && SameFirst(es[j], s);
      assert j != i by {
        if j == i {
          BareEdge(m, own, es, i, s);
        }
      }
      var k := if j < i then j else j - 1;
      assert es'[k] == es[j];
    }
  }

  // Splitting an edge labelled x + y in two, seen from above.
  lemma SplitReach(x: string, y: string, sub: map<string, Route>, s: string)
    requires x <= s
    ensures Reach(Edge(x + y, sub), s) == Reach(Edge(y, sub), s[|x|..])
  {
    assert s == x + s[|x|..];
    if x + y <= s {
      assert s[|x|..][..|y|] == s[|x|..|x + y|] == y;
      assert s[|x|..][|y|..] == s[|x + y|..];
    }
  }

  // The routes of a fresh interior node whose only edge is Edge(y, sub).
  function Prepend(y: string, sub: map<string, Route>): map<string, Route> {
    map s | s in (set t | t in sub :: y + t) :: sub[s[|y|..]]
  }

  lemma PrependRepresents(y: string, sub: map<string, Route>)
    requires y != ""
    ensures WellFormed([Edge(y, sub)]) && Represents(Prepend(y, sub), None, [Edge(y, sub)])
    ensures forall s :: Get(Prepend(y, sub), s) == Reach(Edge(y, sub), s)
  {
    var m, e := Prepend(y, sub), Edge(y, sub);
    assert forall t :: y <= y + t;
    forall s ensures Get(m, s) == Reach(e, s) {
      if y <= s {
        assert s == y + s[|y|..];
      }
    }
    forall s | s != "" && s in m ensures exists i :: 0 <= i < 1 && SameFirst([e][i], s) {
      assert SameFirst([e][0], s);
    }
  }

  // An interior node for x above Edge(y, sub), then bound at p, seen from above.
  lemma SplitThenPut(x: string, y: string, sub: map<string, Route>, p: string, r: Option<Route>)
    requires x != "" && y != "" && x <= p
    ensures forall s :: Reach(Edge(x, Put(Prepend(y, sub), p[|x|..], r)), s)
                        == if s == p then r else Reach(Edge(x + y, sub), s)
  {
    PrependRepresents(y, sub);
    PutReach(Edge(x, Prepend(y, sub)), p, r);
    forall s ensures Reach(Edge(x, Prepend(y, sub)), s) == Reach(Edge(x + y, sub), s) {
      if x <= s {
        SplitReach(x, y, sub, s);
      }
    }
  }

  lemma NotBelow(m: map<string, Route>, own: Option<Route>, es: seq<Edge>, p: string)
    requires WellFormed(es) && Represents(m, own, es) && p != ""
    requires forall i :: 0 <= i < |es| ==> !(es[i].prefix <= p)
    ensures Put(m, p, None) == m
  {
    forall i | 0 <= i < |es| && SameFirst(es[i], p) ensures p !in m {
      assert Get(m, p) == Reach(es[i], p);
    }
  }

  lemma NothingBelow(m: map<string, Route>, own: Option<Route>)
    requires Represents(m, own, [])
    ensures forall s :: s in m ==> s == ""
  {
  }

  // A routeless node above a single edge, seen from its parent.
  lemma MergeReach(x: string, m: map<string, Route>, e: Edge)
    requires e.prefix != "" && Represents(m, None, [e])
    ensures forall s :: Reach(Edge(x + e.prefix, e.sub), s) == Reach(Edge(x, m), s)
  {
    forall s ensures Reach(Edge(x + e.prefix, e.sub), s) == Reach(Edge(x, m), s) {
      if x <= s {
        SplitReach(x, e.prefix, e.sub, s);
        var t := s[|x|..];
        if t != "" && SameFirst([e][0], t) {
          assert Get(m, t) == Reach(e, t);
        }
      }
    }
  }

  function Keep(r: Option<Route>, c: string): Option<Route> {
    if r.Some? && r.value.containerID == c then None else r
  }

  // The routes of all containers but c.
  function WithoutContainer<K>(m: map<K, Route>, c: string): map<K, Route> {
    map k | k in m && m[k].containerID != c :: m[k]
  }

  ghost function FilterEdges(es: seq<Edge>, c: string): seq<Edge> {
    FilterSome(es, |es|, c)
  }

  // The first n edges filtered.
  ghost function FilterSome(es: seq<Edge>, n: nat, c: string): (fs: seq<Edge>)
    ensures |fs| == |es|
  {
    seq(|es|, i requires 0 <= i < |es| => if i < n then Edge(es[i].prefix, WithoutContainer(es[i].sub, c)) else es[i])
  }

  lemma FilterNext(es: seq<Edge>, i: nat, c: string)
    requires i < |es|
    ensures FilterSome(es, i, c)[i := Edge(es[i].prefix, WithoutContainer(es[i].sub, c))] == FilterSome(es, i + 1, c)
    ensures FilterSome(es, i, c)[i] == es[i]
  {
    hide WithoutContainer;
  }

  lemma FilterNone(es: seq<Edge>, c: string)
    ensures FilterSome(es, 0, c) == es
  {
  }

  lemma WithoutContainerRepresents(m: map<string, Route>, own: Option<Route>, es: seq<Edge>, c: string)
    requires WellFormed(es) && Represents(m, own, es)
    ensures WellFormed(FilterEdges(es, c))
    ensures Represents(WithoutContainer(m, c), Keep(own, c), FilterEdges(es, c))
  {
    var m', es' := WithoutContainer(m, c), FilterEdges(es, c);
    forall i, s | 0 <= i < |es'| && SameFirst(es'[i], s) ensures Get(m', s) == Reach(es'[i], s) {
      assert SameFirst(es[i], s) && Get(m, s) == Reach(es[i], s);
    }
    forall s | s != "" && s in m' ensures exists i :: 0 <= i < |es'| && SameFirst(es'[i], s) {
      var i :| 0 <= i < |es| && SameFirst(es[i], s);
      assert SameFirst(es'[i], s);
    }
  }

  // Lookup through the edges of a node.

  function Or<T>(a: Option<T>, b: Option<T>): Option<T> {
    if a.Some? then a else b
  }

  lemma {:induction false} LongestWithoutEdge(m: map<string, Route>, own: Option<Route>, es: seq<Edge>, p: string)
    requires WellFormed(es) && Represents(m, own, es)
    requires forall i :: 0 <= i < |es| ==> !(es[i].prefix <= p)
    ensures LongestMatch(m, p) == own
  {
    if p == "" {
    } else {
      forall i | 0 <= i < |es| && SameFirst(es[i], p) ensures p !in m {
        assert Get(m, p) == Reach(es[i], p);
      }
      var q := p[..|p| - 1];
      LongestWithoutEdge(m, own, es, q);
    }
  }

  lemma {:induction false} LongestThroughEdge(m: map<string, Route>, own: Option<Route>, es: seq<Edge>, p: string, i: nat)
    requires WellFormed(es) && Represents(m, own, es)
    requires i < |es| && es[i].prefix <= p
    ensures LongestMatch(m, p) == Or(LongestMatch(es[i].sub, p[|es[i].prefix|..]), own)
  {
    var x := es[i].prefix;
    var q := p[..|p| - 1];
    assert SameFirst(es[i], p);
    assert Get(m, p) == Reach(es[i], p);
    if p == x {
      assert p[|x|..] == "";
      forall j | 0 <= j < |es| ensures !(es[j].prefix <= q) {
        assert j != i ==> es[j].prefix[0] != p[0];
      }
      LongestWithoutEdge(m, own, es, q);
    } else {
      assert x <= q && q[|x|..] == p[|x|..][..|p[|x|..]| - 1];
      LongestThroughEdge(m, own, es, q, i);
    }
  }

  // commonPrefix
  method CommonPrefix(a: string, b: string) returns (p: string)
    ensures p <= a && p <= b
    ensures |p| < |a| && |p| < |b| ==> a[|p|] != b[|p|]
  {
    var minLen := |a|;
    if |b| < minLen {
      minLen := |b|;
    }
    var i := 0;
    while i < minLen && a[i] == b[i]
      invariant 0 <= i <= minLen
      invariant a[..i] == b[..i]
    {
      i := i + 1;
    }
    return a[..i];
  }

  class RadixNode {
    var path: string
    var children: seq<RadixNode>
    var route: Option<Route>
    var isLeaf: bool

    // The nodes of this subtree, its outgoing edges, and the map it stands for.
    ghost var Repr: set<RadixNode>
    ghost var edges: seq<Edge>
    ghost var entries: map<string, Route>

    ghost predicate Valid()
      reads this, Repr
      decreases Repr + {this}
    {
      && this in Repr
      && (route.Some? ==> isLeaf)
      && |edges| == |children| && WellFormed(edges)
      && Represents(entries, route, edges)
      && (forall i :: 0 <= i < |children| ==>
            && children[i] in Repr && children[i].Repr <= Repr && this !in children[i].Repr
            && edges[i] == Edge(children[i].path, children[i].entries)
            && children[i].Valid())
      && (forall i, j :: 0 <= i < j < |children| ==> children[i].Repr !! children[j].Repr)
    }

    constructor (path: string, route: Option<Route>, isLeaf: bool)
      requires route.Some? ==> isLeaf
      ensures Valid() && fresh(Repr)
      ensures this.path == path && this.route == route && this.isLeaf == isLeaf && children == []
      ensures entries == Put(map[], "", route)
    {
      this.path, this.route, this.isLeaf, children := path, route, isLeaf, [];
      Repr, edges, entries := {this}, [], Put(map[], "", route);
    }

    // This node is valid but for what it records about its i-th child.
    ghost predicate ValidBut(i: nat)
      reads this, Repr, children, set j, o | 0 <= j < |children| && o in children[j].Repr :: o
    {
      && this in Repr
      && (route.Some? ==> isLeaf)
      && |edges| == |children| && WellFormed(edges) && i < |children|
      && Represents(entries, route, edges)
      && children[i] in children[i].Repr && this !in children[i].Repr && children[i].Valid()
      && (forall j :: 0 <= j < |children| && j != i ==>
            && children[j] in Repr && children[j].Repr <= Repr && this !in children[j].Repr
            && edges[j] == Edge(children[j].path, children[j].entries)
            && children[j].Valid())
      && (forall j, k :: 0 <= j < k < |children| ==> children[j].Repr !! children[k].Repr)
    }

    // Record the new state of the i-th child, which differs from the old one at p only.
    ghost method Refresh(i: nat, p: string, r: Option<Route>)
      requires ValidBut(i)
      requires SameFirst(Edge(children[i].path, children[i].entries), edges[i].prefix)
      requires SameFirst(Edge(children[i].path, children[i].entries), p)
      requires forall s :: SameFirst(Edge(children[i].path, children[i].entries), s) ==>
                 Reach(Edge(children[i].path, children[i].entries), s)
                 == if s == p then r else Reach(edges[i], s)
      modifies this`edges, this`entries, this`Repr
      ensures Valid() && Repr == old(Repr) + children[i].Repr
      ensures entries == Put(old(entries), p, r)
    {
      hide Represents;
      hide Reach;
      hide WellFormed;
      var e := Edge(children[i].path, children[i].entries);
      ReplaceEdge(entries, route, edges, i, e, p, r);
      edges := edges[i := e];
      entries := Put(entries, p, r);
      Repr := Repr + children[i].Repr;
    }

    // insert: bind what remains of the path below this node.
    method Insert(rest: string, r: Option<Route>)
      requires Valid() && rest != ""
      modifies Repr
      ensures Valid() && fresh(Repr - old(Repr))
      ensures path == old(path) && entries == Put(old(entries), rest, r)
      decreases |rest|, 1
    {
      hide Represents;
      var i := 0;
      var prefix := "";
      while i < |children|
        modifies {}
        invariant 0 <= i <= |children|
        invariant forall j :: 0 <= j < i ==> edges[j].prefix[0] != rest[0]
        invariant prefix == ""
      {
        prefix := CommonPrefix(children[i].path, rest);
        if |prefix| > 0 {
          break;
        }
        i := i + 1;
      }

      if i == |children| {
        AddChild(rest, r);
      } else if |prefix| == |children[i].path| {
        InsertBelow(i, rest, r);
      } else {
        Split(i, prefix, rest, r);
      }
    }

    // No common prefix: add as new child.
    method AddChild(rest: string, r: Option<Route>)
      requires Valid() && rest != ""
      requires forall j :: 0 <= j < |edges| ==> edges[j].prefix[0] != rest[0]
      modifies this
      ensures Valid() && fresh(Repr - old(Repr))
      ensures path == old(path) && entries == Put(old(entries), rest, r)
    {
      hide Represents;
      hide WellFormed;
      var newNode := new RadixNode(rest, r, true);
      AddEdge(entries, route, edges, rest, r);
      children := children + [newNode];
      edges := edges + [Edge(rest, newNode.entries)];
      Repr := Repr + newNode.Repr;
      entries := Put(entries, rest, r);
    }

    // The path continues in, or ends at, the i-th child.
    method InsertBelow(i: nat, rest: string, r: Option<Route>)
      requires Valid() && i < |children| && children[i].path <= rest
      modifies Repr
      ensures Valid() && fresh(Repr - old(Repr))
      ensures path == old(path) && entries == Put(old(entries), rest, r)
      decreases |rest|, 0
    {
      hide Represents;
      hide Reach;
      var child := children[i];
      ghost var e := edges[i];
      assert e.prefix != "" && SameFirst(e, rest) && SameFirst(e, e.prefix);
      var remaining := rest[|child.path|..];
      if remaining == "" {
        child.SetRoute(r, true);
      } else {
        child.Insert(remaining, r);
      }
      PutReach(e, rest, r);
      Refresh(i, rest, r);
    }

    // The path leaves the i-th edge after `prefix`: put an interior node there.
    method Split(i: nat, prefix: string, rest: string, r: Option<Route>)
      requires Valid() && i < |children| && prefix != ""
      requires prefix < children[i].path && prefix <= rest
      requires |prefix| < |rest| ==> children[i].path[|prefix|] != rest[|prefix|]
      modifies Repr
      ensures Valid() && fresh(Repr - old(Repr))
      ensures path == old(path) && entries == Put(old(entries), rest, r)
    {
      hide Represents;
      hide Reach;
      hide WellFormed;
      var child := children[i];
      ghost var e := edges[i];
      var splitNode := SplitOff(child, prefix, rest[|prefix|..], r);
      assert e.prefix == prefix + child.path;
      SplitThenPut(prefix, child.path, child.entries, rest, r);
      children := children[i := splitNode];
      Refresh(i, rest, r);
    }

    // The interior node, bound at what remains of the path.
    static method SplitOff(child: RadixNode, prefix: string, remaining: string, r: Option<Route>)
      returns (splitNode: RadixNode)
      requires child.Valid() && prefix != "" && prefix < child.path
      requires remaining != "" ==> child.path[|prefix|] != remaining[0]
      modifies child`path
      ensures child.path == old(child.path)[|prefix|..]
      ensures splitNode.Valid() && splitNode.path == prefix
      ensures forall n :: n in splitNode.Repr ==> n in child.Repr || fresh(n)
      ensures splitNode.entries == Put(Prepend(child.path, child.entries), remaining, r)
    {
      hide Represents;
      hide WellFormed;
      hide Prepend;
      hide Put;
      splitNode := Above(child, prefix);
      if remaining != "" {
        splitNode.AddChild(remaining, r);
      } else {
        splitNode.SetRoute(r, true);
      }
    }

    // A fresh interior node between this child and its parent.
    static method Above(child: RadixNode, prefix: string) returns (splitNode: RadixNode)
      requires child.Valid() && prefix != "" && prefix < child.path
      modifies child`path
      ensures child.path == old(child.path)[|prefix|..] && child.Valid()
      ensures fresh(splitNode) && splitNode.Valid() && splitNode.Repr == {splitNode} + child.Repr
      ensures splitNode.path == prefix && splitNode.edges == [Edge(child.path, child.entries)]
      ensures splitNode.entries == Prepend(child.path, child.entries)
    {
      hide Represents;
      splitNode := new RadixNode(prefix, None, false);
      child.path := child.path[|prefix|..];
      PrependRepresents(child.path, child.entries);
      splitNode.children := [child];
      splitNode.Repr := {splitNode} + child.Repr;
      splitNode.edges := [Edge(child.path, child.entries)];
      splitNode.entries := Prepend(child.path, child.entries);
    }

    // Give this node's own route a new value.
    method SetRoute(r: Option<Route>, leaf: bool)
      requires Valid() && (r.Some? ==> leaf)
      modifies this`route, this`isLeaf, this`entries
      ensures Valid() && entries == Put(old(entries), "", r)
      ensures route == r && isLeaf == leaf
    {
      hide Represents;
      hide WellFormed;
      PutOwn(entries, route, edges, r);
      route, isLeaf := r, leaf;
      entries := Put(entries, "", r);
    }

    // match: the route at the longest bound prefix of the path, else lastMatch.
    method Match(rest: string, lastMatch: Option<Route>) returns (best: Option<Route>)
      requires Valid()
      ensures best == Or(LongestMatch(entries, rest), lastMatch)
      decreases |rest|
    {
      best := lastMatch;
      if isLeaf && route.Some? {
        best := route;
      }
      if rest == "" {
        return;
      }
      ghost var hit := false;
      var i := 0;
      while i < |children|
        invariant 0 <= i <= |children|
        invariant hit <==> exists j :: 0 <= j < i && edges[j].prefix <= rest
        invariant best == Or(if hit then LongestMatch(entries, rest) else route, lastMatch)
      {
        var child := children[i];
        if child.path <= rest {
          LongestThroughEdge(entries, route, edges, rest, i);
          var found := child.Match(rest[|child.path|..], best);
          if found.Some? {
            best := found;
          }
          hit := true;
        }
        i := i + 1;
      }
      if !hit {
        LongestWithoutEdge(entries, route, edges, rest);
      }
    }

    // delete: unbind what remains of the path; reports whether this node lost a child.
    method Delete(rest: string) returns (removed: bool)
      requires Valid() && rest != ""
      modifies Repr
      ensures Valid() && Repr <= old(Repr)
      ensures path == old(path) && route == old(route) && isLeaf == old(isLeaf)
      ensures entries == Put(old(entries), rest, None)
      ensures removed <==> |children| < |old(children)|
      decreases |rest|, 1
    {
      var i := 0;
      while i < |children| && !(children[i].path <= rest)
        invariant 0 <= i <= |children|
        invariant forall j :: 0 <= j < i ==> !(edges[j].prefix <= rest)
      {
        i := i + 1;
      }
      if i == |children| {
        NotBelow(entries, route, edges, rest);
        removed := false;
      } else {
        removed := DeleteBelow(i, rest);
      }
    }

    // The path continues in, or ends at, the i-th child.
    method DeleteBelow(i: nat, rest: string) returns (removed: bool)
      requires Valid() && i < |children| && children[i].path <= rest
      modifies Repr
      ensures Valid() && Repr <= old(Repr)
      ensures path == old(path) && route == old(route) && isLeaf == old(isLeaf)
      ensures entries == Put(old(entries), rest, None)
      ensures removed <==> |children| < |old(children)|
      decreases |rest|, 0
    {
      hide Represents;
      var child := children[i];
      var remaining := rest[|child.path|..];
      assert rest == child.path + remaining;
      if remaining == "" {
        assert rest == child.path;
        if |child.children| == 0 {
          DropLeaf(i);
          return true;
        }
        ClearChild(i);
        return false;
      }
      ghost var e := edges[i];
      assert e.prefix != "" && SameFirst(e, rest) && SameFirst(e, e.prefix);
      hide Reach;
      var lost := child.Delete(remaining);
      PutReach(e, rest, None);
      if lost && |child.children| == 1 && !child.isLeaf {
        child.Compact();
      }
      Refresh(i, rest, None);
      return false;
    }

    // Remove the i-th child, which has no children of its own.
    method DropLeaf(i: nat)
      requires Valid() && i < |children| && children[i].children == []
      modifies this
      ensures Valid() && Repr == old(Repr)
      ensures path == old(path) && route == old(route) && isLeaf == old(isLeaf)
      ensures entries == Put(old(entries), old(children[i].path), None)
      ensures children == old(children[..i] + children[i + 1..])
    {
      hide Represents;
      hide WellFormed;
      hide Put;
      ghost var es := edges[..i] + edges[i + 1..];
      ghost var m := Put(entries, children[i].path, None);
      assert WellFormed(es) && Represents(m, route, es) by {
        assert children[i].Valid();
        NothingBelow(children[i].entries, children[i].route);
        DropEdge(entries, route, edges, i);
      }
      OwnsAllBut(i);
      children := children[..i] + children[i + 1..];
      edges := es;
      entries := m;
    }

    ghost predicate Owns(cs: seq<RadixNode>, es: seq<Edge>)
      reads this, Repr
    {
      && |es| == |cs|
      && (forall j :: 0 <= j < |cs| ==>
            && cs[j] in Repr && cs[j].Repr <= Repr && this !in cs[j].Repr
            && es[j] == Edge(cs[j].path, cs[j].entries)
            && cs[j].Valid())
      && (forall j, k :: 0 <= j < k < |cs| ==> cs[j].Repr !! cs[k].Repr)
    }

    lemma OwnsAllBut(i: nat)
      requires Valid() && i < |children|
      ensures Owns(children[..i] + children[i + 1..], edges[..i] + edges[i + 1..])
    {
      hide Represents;
      hide WellFormed;
      var cs, es := children[..i] + children[i + 1..], edges[..i] + edges[i + 1..];
      assert forall j :: 0 <= j < |cs| ==>
          cs[j] == children[if j < i then j else j + 1] && es[j] == edges[if j < i then j else j + 1];
    }

    // Clear the i-th child's own route.
    method ClearChild(i: nat)
      requires Valid() && i < |children|
      modifies this`edges, this`entries, this`Repr, children[i]
      ensures Valid() && Repr == old(Repr)
      ensures entries == Put(old(entries), old(children[i].path), None)
    {
      hide Represents;
      hide Reach;
      var child := children[i];
      ghost var e := edges[i];
      assert SameFirst(e, e.prefix);
      child.SetRoute(None, false);
      assert child.path[|child.path|..] == "";
      PutReach(e, child.path, None);
      Refresh(i, child.path, None);
    }

    // A routeless node with a single child takes that child's place.
    method Compact()
      requires Valid() && |children| == 1 && !isLeaf
      modifies this
      ensures Valid() && Repr == old(Repr) && old(path) < path
      ensures forall s :: Reach(Edge(path, entries), s) == Reach(old(Edge(path, entries)), s)
      ensures path == old(path + children[0].path)
      ensures route == old(children[0].route) && isLeaf == old(children[0].isLeaf)
      ensures children == old(children[0].children)
    {
      var grandchild := children[0];
      assert edges == [edges[0]];
      MergeReach(path, entries, edges[0]);
      hide Represents;
      hide Reach;
      path := path + grandchild.path;
      route := grandchild.route;
      isLeaf := grandchild.isLeaf;
      children := grandchild.children;
      edges := grandchild.edges;
      entries := grandchild.entries;
    }

    // removeByContainerID: drop every route of a container.
    method RemoveByContainerID(containerID: string)
      requires Valid()
      modifies Repr
      ensures Valid() && Repr == old(Repr)
      ensures path == old(path) && entries == WithoutContainer(old(entries), containerID)
      decreases Repr, 2
    {
      hide Represents;
      hide WellFormed;
      hide WithoutContainer;
      hide FilterEdges;
      WithoutContainerRepresents(entries, route, edges, containerID);
      if route.Some? && route.value.containerID == containerID {
        route := None;
        isLeaf := false;
      }
      assert Owns(children, edges);
      RemoveBelowAll(containerID);
      edges := FilterEdges(edges, containerID);
      entries := WithoutContainer(entries, containerID);
    }

    method RemoveBelowAll(containerID: string)
      requires this in Repr && Owns(children, edges)
      modifies Repr - {this}
      ensures Owns(children, FilterEdges(edges, containerID))
      decreases Repr, 1
    {
      hide Represents;
      hide WellFormed;
      hide WithoutContainer;
      hide FilterSome;
      hide Valid;
      FilterNone(edges, containerID);
      var i := 0;
      while i < |children|
        invariant 0 <= i <= |children|
        invariant Owns(children, FilterSome(edges, i, containerID))
      {
        FilterNext(edges, i, containerID);
        RemoveBelow(FilterSome(edges, i, containerID), i, containerID);
        i := i + 1;
      }
    }

    method RemoveBelow(ghost es: seq<Edge>, i: nat, containerID: string)
      requires this in Repr && Owns(children, es) && i < |children|
      modifies children[i].Repr
      ensures Owns(children, es[i := Edge(es[i].prefix, WithoutContainer(es[i].sub, containerID))])
      decreases Repr, 0
    {
      hide Represents;
      hide WellFormed;
      hide WithoutContainer;
      children[i].RemoveByContainerID(containerID);
    }
  }

  // A tree keeps the route of "/" at its root, under the empty suffix.
  function Rooted(m: map<string, Route>): map<string, Route> {
    Put(m - {""}, "/", Get(m, ""))
  }

  lemma {:induction false} RootedMatch(m: map<string, Route>, p: string)
    requires "/" !in m && p != "" && p[0] == '/'
    ensures LongestMatch(Rooted(m), p) == LongestMatch(m, p)
  {
    if |p| == 1 {
      assert p == "/";
      assert LongestMatch(m, p) == LongestMatch(m, "");
      assert "" !in Rooted(m);
      assert p[..|p| - 1] == "";
    } else {
      RootedMatch(m, p[..|p| - 1]);
    }
  }

  lemma RootedPut(m: map<string, Route>, p: string, r: Option<Route>)
    requires "/" !in m
    ensures p != "" && p != "/" ==> Rooted(Put(m, p, r)) == Put(Rooted(m), p, r)
    ensures Rooted(Put(m, "", r)) == Put(Rooted(m), "/", r)
  {
  }

  lemma RootedWithout(m: map<string, Route>, c: string)
    ensures Rooted(WithoutContainer(m, c)) == WithoutContainer(Rooted(m), c)
  {
    var m', n := WithoutContainer(m, c), Rooted(m);
    assert Rooted(m').Keys == WithoutContainer(n, c).Keys;
  }

  // A route without a path, or at "/", answers every request that no longer one does.
  lemma RootServesAll(m: map<string, Route>, path: string)
    requires "/" in m
    ensures LongestMatch(m, NormalizePath(path)).Some?
  {
    LongestMatchIsLongest(m, NormalizePath(path));
    StartsRooted(path);
    assert IsPrefixKey(m, NormalizePath(path), "/");
  }

  lemma InsertedAt(m: map<string, Route>, path: string, r: Option<Route>)
    ensures path == "" || path == "/" ==> Get(Put(m, NormalizePath(path), r), "/") == r
    ensures !("/" <= path) ==> NormalizePath(path) == NormalizePath("/" + path)
  {
    EmptyIsRoot();
    if !("/" <= path) {
      SlashAdded(path);
    }
    hide NormalizePath;
  }

  class RadixTree {
    const root: RadixNode

    ghost predicate Valid()
      reads root, root.Repr
    {
      root in root.Repr && root.Valid() && root.path == "" && "/" !in root.entries
    }

    // The flat map this tree refines, keyed by normalised path.
    ghost function Routes(): map<string, Route>
      reads root
    {
      Rooted(root.entries)
    }

    constructor ()
      ensures Valid() && fresh(root) && fresh(root.Repr)
      ensures Routes() == map[]
    {
      root := new RadixNode("", None, false);
    }

    method IsEmpty() returns (empty: bool)
      requires Valid()
      ensures empty ==> Routes() == map[]
    {
      empty := !root.isLeaf && |root.children| == 0;
      if empty {
        NothingBelow(root.entries, root.route);
      }
    }

    method Insert(path: string, r: Option<Route>)
      requires Valid()
      modifies root.Repr
      ensures Valid() && fresh(root.Repr - old(root.Repr))
      ensures Routes() == Put(old(Routes()), NormalizePath(path), r)
      ensures !("/" <= path) ==> Routes() == Put(old(Routes()), NormalizePath("/" + path), r)
      ensures path == "" || path == "/" ==> Get(Routes(), "/") == r
    {
      InsertedAt(Routes(), path, r);
      hide Put;
      hide Rooted;
      var p := NormalizePath(path);
      RootedPut(root.entries, p, r);
      PutElsewhere(root.entries, p, "/", r);
      PutElsewhere(root.entries, "", "/", r);
      if p == "/" {
        root.SetRoute(r, true);
        return;
      }
      root.Insert(p, r);
    }

    method Match(path: string) returns (best: Option<Route>)
      requires Valid()
      ensures best == LongestMatch(Routes(), NormalizePath(path))
      ensures "/" in Routes() ==> best.Some?
    {
      if "/" in Routes() {
        RootServesAll(Routes(), path);
      }
      var p := NormalizePath(path);
      RootedMatch(root.entries, p);
      if p == "/" {
        assert p[..0] == "";
        return root.route;
      }
      best := root.Match(p, None);
    }

    method Delete(path: string)
      requires Valid()
      modifies root.Repr
      ensures Valid() && root.Repr <= old(root.Repr)
      ensures Routes() == Put(old(Routes()), NormalizePath(path), None)
    {
      hide Put;
      hide Rooted;
      var p := NormalizePath(path);
      RootedPut(root.entries, p, None);
      PutElsewhere(root.entries, p, "/", None);
      PutElsewhere(root.entries, "", "/", None);
      if p == "/" {
        root.SetRoute(None, false);
        return;
      }
      var _ := root.Delete(p);
    }

    method RemoveByContainerID(containerID: string)
      requires Valid()
      modifies root.Repr
      ensures Valid() && root.Repr == old(root.Repr)
      ensures Routes() == WithoutContainer(old(Routes()), containerID)
      ensures forall p :: p in old(Routes()) && old(Routes())[p].containerID != containerID ==>
                p in Routes() && Routes()[p] == old(Routes())[p]
      ensures forall p :: p in Routes() ==> Routes()[p].containerID != containerID && p in old(Routes())
    {
      hide Rooted;
      RootedWithout(root.entries, containerID);
      root.RemoveByContainerID(containerID);
    }
  }
}
