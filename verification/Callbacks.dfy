// internal/health/checker.go with cmd/dockrouter/main.go: the checker notifies outside its
// lock, so a state change and the mark it makes in the table are two steps, and callbacks
// of one target may overtake each other.
module Callbacks {
  import opened Health

  // One target: its check, the states handed to the callback so far, the callbacks that
  // have not run yet, and whether the table keeps the target in rotation.
  datatype System = System(check: Check, issued: seq<HealthState>, waiting: set<nat>, healthy: bool)

  datatype Event = Probed(ok: bool) | Delivered(n: nat)

  predicate Enabled(s: System, e: Event) {
    e.Delivered? ==> e.n in s.waiting && e.n < |s.issued|
  }

  function Next(s: System, e: Event): System
    requires Enabled(s, e)
  {
    match e
    case Probed(ok) =>
      var c := Probe(s.check, ok);
      if c.state == s.check.state then s.(check := c)
      else System(c, s.issued + [c.state], s.waiting + {|s.issued|}, s.healthy)
    case Delivered(n) => s.(waiting := s.waiting - {n}, healthy := InRotation(s.issued[n]))
  }

  // Events that are not enabled are skipped.
  function RunOf(c: Check, healthy: bool, events: seq<Event>): System {
    if events == [] then System(c, [], {}, healthy)
    else
      var s := RunOf(c, healthy, events[..|events| - 1]);
      if Enabled(s, events[|events| - 1]) then Next(s, events[|events| - 1]) else s
  }

  // The last state handed out is the present one.
  ghost predicate Current(s: System) {
    && (forall n :: n in s.waiting ==> n < |s.issued|)
    && (s.issued != [] ==> s.issued[|s.issued| - 1] == s.check.state)
  }

  lemma {:induction false} AlwaysCurrent(c: Check, healthy: bool, events: seq<Event>)
    ensures Current(RunOf(c, healthy, events))
  {
    if events == [] {
    } else {
      var before, e := events[..|events| - 1], events[|events| - 1];
      AlwaysCurrent(c, healthy, before);
      var s := RunOf(c, healthy, before);
      hide Probe;
      if Enabled(s, e) {
        NextCurrent(s, e);
      }
    }
  }

  lemma NextCurrent(s: System, e: Event)
    requires Current(s) && Enabled(s, e)
    ensures Current(Next(s, e))
  {
    hide Probe;
    var t := Next(s, e);
    if e.Probed? && t.issued != s.issued {
      assert t.issued[|t.issued| - 1] == t.check.state;
    }
  }

  // Callbacks that run in the order in which they were issued.
  predicate InOrder(c: Check, healthy: bool, events: seq<Event>) {
    events == [] ||
    var before, e := events[..|events| - 1], events[|events| - 1];
    && InOrder(c, healthy, before)
    && (e.Delivered? ==> forall n :: n in RunOf(c, healthy, before).waiting ==> e.n <= n)
  }

  // Then those waiting are the last ones, and the table has followed up to them.
  lemma {:induction false} InOrderFollows(c: Check, healthy: bool, events: seq<Event>) returns (m: nat)
    requires InOrder(c, healthy, events)
    ensures var s := RunOf(c, healthy, events);
            && m <= |s.issued| && (forall n: nat :: n in s.waiting <==> m <= n < |s.issued|)
            && s.healthy == if m == 0 then healthy else InRotation(s.issued[m - 1])
  {
    if events == [] {
      m := 0;
    } else {
      var before, e := events[..|events| - 1], events[|events| - 1];
      m := InOrderFollows(c, healthy, before);
      AlwaysCurrent(c, healthy, before);
      var s := RunOf(c, healthy, before);
      if Enabled(s, e) {
        m := NextFollows(s, e, healthy, m);
      }
    }
  }

  lemma NextFollows(s: System, e: Event, healthy: bool, m: nat) returns (k: nat)
    requires Enabled(s, e) && m <= |s.issued| && (forall n: nat :: n in s.waiting <==> m <= n < |s.issued|)
    requires s.healthy == if m == 0 then healthy else InRotation(s.issued[m - 1])
    requires e.Delivered? ==> forall n :: n in s.waiting ==> e.n <= n
    ensures var t := Next(s, e);
            && k <= |t.issued| && (forall n: nat :: n in t.waiting <==> k <= n < |t.issued|)
            && t.healthy == if k == 0 then healthy else InRotation(t.issued[k - 1])
  {
    hide Probe;
    k := m;
    if e.Delivered? {
      assert m in s.waiting;
      k := m + 1;
    }
  }

  // So whenever none is waiting the table agrees with the checker.
  lemma InOrderAgrees(c: Check, healthy: bool, events: seq<Event>)
    requires InOrder(c, healthy, events)
    ensures var s := RunOf(c, healthy, events);
            s.waiting == {} && s.issued != [] ==> s.healthy == InRotation(s.check.state)
  {
    var m := InOrderFollows(c, healthy, events);
    AlwaysCurrent(c, healthy, events);
    var s := RunOf(c, healthy, events);
    if m < |s.issued| {
      assert m in s.waiting;
    }
    hide RunOf;
  }

  // Out of order.

  // Run the waiting callbacks in some order.
  function Deliver(s: System, order: seq<nat>): System {
    if order == [] then s
    else
      var t := Deliver(s, order[..|order| - 1]);
      var e := Delivered(order[|order| - 1]);
      if Enabled(t, e) then Next(t, e) else t
  }

  ghost predicate OrderOf(order: seq<nat>, waiting: set<nat>) {
    && (forall i, j :: 0 <= i < j < |order| ==> order[i] != order[j])
    && (forall n :: n in order <==> n in waiting)
  }

  lemma LastIn(order: seq<nat>, waiting: set<nat>)
    requires order != [] && OrderOf(order, waiting)
    ensures var before, n := order[..|order| - 1], order[|order| - 1];
            n in waiting && OrderOf(before, waiting - {n})
  {
    var before, n := order[..|order| - 1], order[|order| - 1];
    assert order == before + [n];
  }

  lemma {:induction false} DeliveredAll(s: System, order: seq<nat>, some: set<nat>)
    requires Current(s) && OrderOf(order, some) && some <= s.waiting
    ensures var t := Deliver(s, order);
            && t.check == s.check && t.issued == s.issued && t.waiting == s.waiting - some
            && (order == [] ==> t.healthy == s.healthy)
            && (order != [] ==>
                  var n := order[|order| - 1];
                  n in s.waiting && t.healthy == InRotation(s.issued[n]))
  {
    if order == [] {
      assert some == set n | n in order;
    } else {
      var n := order[|order| - 1];
      LastIn(order, some);
      hide OrderOf;
      DeliveredAll(s, order[..|order| - 1], some - {n});
    }
  }

  // Any waiting callback may come last.
  lemma {:induction false} OrderEndingIn(waiting: set<nat>, n: nat) returns (order: seq<nat>)
    requires n in waiting
    ensures OrderOf(order, waiting) && order != [] && order[|order| - 1] == n
    decreases waiting
  {
    if waiting == {n} {
      order := [n];
    } else {
      assert waiting - {n} != {} by {
        assert waiting - {n} + {n} == waiting;
      }
      var m :| m in waiting - {n};
      var rest := OrderEndingIn(waiting - {m}, n);
      order := [m] + rest;
    }
  }

  // If no probe comes in between, the table ends in agreement with the checker in whatever
  // order the waiting callbacks run, exactly when none of them says otherwise than the
  // present state.
  lemma AnyOrderAgreesExactlyWhen(s: System)
    requires Current(s) && s.waiting != {}
    ensures (forall order | OrderOf(order, s.waiting) :: Deliver(s, order).healthy == InRotation(s.check.state)) <==>
              forall n :: n in s.waiting ==> InRotation(s.issued[n]) == InRotation(s.check.state)
  {
    if n :| n in s.waiting && InRotation(s.issued[n]) != InRotation(s.check.state) {
      var order := OrderEndingIn(s.waiting, n);
      DeliveredAll(s, order, s.waiting);
      assert Deliver(s, order).healthy != InRotation(s.check.state);
    } else {
      forall order | OrderOf(order, s.waiting) ensures Deliver(s, order).healthy == InRotation(s.check.state) {
        DeliveredAll(s, order, s.waiting);
        var m :| m in s.waiting;
        assert m in order;
      }
    }
  }

  // A target that passes and then fails once, with threshold one: the second callback
  // overtakes the first, and the table keeps an unhealthy target in rotation.
  lemma OvertakingDisagrees(healthy: bool)
    ensures var s := RunOf(Registered(1, 2), healthy, [Probed(true), Probed(false), Delivered(1), Delivered(0)]);
            s.waiting == {} && s.check.state == Unhealthy && s.healthy
  {
    var c := Registered(1, 2);
    var all := [Probed(true), Probed(false), Delivered(1), Delivered(0)];
    assert all[..3] == [Probed(true), Probed(false), Delivered(1)];
    assert all[..3][..2] == [Probed(true), Probed(false)] && all[..3][..2][..1] == [Probed(true)];
    assert all[..3][..2][..1][..0] == [];
    var s1 := RunOf(c, healthy, [Probed(true)]);
    assert s1.issued == [Healthy] && s1.waiting == {0};
    var s2 := RunOf(c, healthy, [Probed(true), Probed(false)]);
    assert s2 == Next(s1, Probed(false));
    assert s2.issued == [Healthy, Unhealthy] && s2.waiting == {0, 1};
    var s3 := RunOf(c, healthy, all[..3]);
    assert s3 == Next(s2, Delivered(1));
  }
}
