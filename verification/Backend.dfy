// internal/router/backend.go: the pool object. Each method is one critical section.
module Backend {
  import opened Targets
  import opened Selection

  class BackendTarget {
    var address: string
    var containerID: string
    var weight: int
    var healthy: bool
    var requests: int
    var failures: int
    var activeConns: int
    var consecFail: int

    constructor (address: string, containerID: string, weight: int, healthy: bool)
      ensures View() == Target(address, containerID, weight, healthy, 0, 0, 0, 0)
    {
      this.address, this.containerID, this.weight, this.healthy := address, containerID, weight, healthy;
      requests, failures, activeConns, consecFail := 0, 0, 0, 0;
    }

    // The failure branch of RecordFailure: count it, and leave rotation if others remain.
    method Fail(many: bool)
      modifies this
      ensures forall a :: View() == Touch(old(View()), Op.RecordFailure(a), many)
    {
      failures := failures + 1;
      consecFail := consecFail + 1;
      if consecFail >= PASSIVE_EJECT_THRESHOLD && healthy && many {
        healthy := false;
      }
    }

    function View(): Target
      reads this
    {
      Target(address, containerID, weight, healthy, requests, failures, activeConns, consecFail)
    }
  }

  function Views(ts: seq<BackendTarget>): (vs: seq<Target>)
    reads ts
    ensures |vs| == |ts| && forall i :: 0 <= i < |ts| ==> vs[i] == ts[i].View()
  {
    seq(|ts|, i requires 0 <= i < |ts| reads ts => ts[i].View())
  }

  class BackendPool {
    var targets: seq<BackendTarget>
    var strategy: Strategy
    var rrCounter: nat

    ghost predicate Valid()
      reads this
    {
      && (forall i, j :: 0 <= i < j < |targets| ==> targets[i] != targets[j])
      && rrCounter < TWO_TO_64
    }

    // The values of the targets, in order.
    function Contents(): (vs: seq<Target>)
      reads this, targets
      ensures |vs| == |targets|
    {
      Views(targets)
    }

    constructor (strategy: Strategy)
      ensures Valid() && targets == [] && this.strategy == strategy && rrCounter == 0
    {
      this.strategy, targets, rrCounter := strategy, [], 0;
    }

    method SetStrategy(s: Strategy)
      modifies this`strategy
      ensures strategy == s
    {
      strategy := s;
    }

    // The loop every method opens with: the first target at an address.
    method Find(address: string) returns (i: nat)
      ensures i == AddressIndex(Contents(), address)
    {
      i := 0;
      while i < |targets| && targets[i].address != address
        invariant i <= |targets|
        invariant AddressIndex(Contents(), address) == i + AddressIndex(Contents()[i..], address)
      {
        assert Contents()[i..][1..] == Contents()[i + 1..];
        i := i + 1;
      }
    }

    method Add(target: BackendTarget)
      requires Valid()
      modifies this`targets, targets
      ensures Valid()
      ensures targets == old(targets) || targets == old(targets) + [target]
      ensures Contents() == Step(old(Contents()), Op.Add(old(target.View())))
    {
      hide Targets.HealthyCount;
      hide Views;
      var i := Find(target.address);
      if i < |targets| {
        Update(i, target);
        return;
      }
      targets := targets + [target];
      assert Contents() == old(Contents()) + [target.View()];
    }

    // The branch of Add for an address that is known: the statistics stay.
    method Update(i: nat, target: BackendTarget)
      requires Valid() && i < |targets|
      modifies targets[i]
      ensures var t := old(Contents()[i]);
              Contents() == old(Contents())[i :=
                t.(containerID := old(target.containerID), weight := old(target.weight), healthy := old(target.healthy))]
    {
      var t := targets[i];
      t.containerID := target.containerID;
      t.weight := target.weight;
      t.healthy := target.healthy;
      assert Contents() == old(Contents())[i := t.View()];
    }

    method Remove(containerID: string)
      requires Valid()
      modifies this`targets
      ensures Valid()
      ensures forall t :: t in targets ==> t in old(targets)
      ensures Contents() == Step(old(Contents()), Op.Remove(containerID))
    {
      hide Targets.HealthyCount;
      hide Views;
      var i := FindContainer(containerID);
      if i < |targets| {
        targets := targets[..i] + targets[i + 1..];
        assert Contents() == old(Contents()[..i] + Contents()[i + 1..]);
      }
    }

    method FindContainer(containerID: string) returns (i: nat)
      ensures i == ContainerIndex(Contents(), containerID)
    {
      i := 0;
      while i < |targets| && targets[i].containerID != containerID
        invariant i <= |targets|
        invariant ContainerIndex(Contents(), containerID) == i + ContainerIndex(Contents()[i..], containerID)
      {
        assert Contents()[i..][1..] == Contents()[i + 1..];
        i := i + 1;
      }
    }

    method MarkHealthy(address: string)
      requires Valid()
      modifies targets
      ensures Valid() && Contents() == Step(old(Contents()), Op.MarkHealthy(address))
    {
      var i := Find(address);
      if i < |targets| {
        targets[i].healthy := true;
        targets[i].consecFail := 0;
      }
    }

    method MarkUnhealthy(address: string)
      requires Valid()
      modifies targets
      ensures Valid() && Contents() == Step(old(Contents()), Op.MarkUnhealthy(address))
    {
      var i := Find(address);
      if i < |targets| {
        targets[i].healthy := false;
      }
    }

    // The health checker's call.
    method Mark(address: string, healthy: bool)
      requires Valid()
      modifies targets
      ensures Valid()
      ensures Contents() == Step(old(Contents()), if healthy then Op.MarkHealthy(address) else Op.MarkUnhealthy(address))
    {
      if healthy {
        MarkHealthy(address);
      } else {
        MarkUnhealthy(address);
      }
    }

    method RecordRequest(address: string)
      requires Valid()
      modifies targets
      ensures Valid() && Contents() == Step(old(Contents()), Op.RecordRequest(address))
    {
      var i := Find(address);
      if i < |targets| {
        targets[i].requests := targets[i].requests + 1;
        targets[i].activeConns := targets[i].activeConns + 1;
      }
    }

    method CompleteRequest(address: string)
      requires Valid()
      modifies targets
      ensures Valid() && Contents() == Step(old(Contents()), Op.CompleteRequest(address))
    {
      var i := Find(address);
      if i < |targets| {
        targets[i].activeConns := targets[i].activeConns - 1;
      }
    }

    method RecordSuccess(address: string)
      requires Valid()
      modifies targets
      ensures Valid() && Contents() == Step(old(Contents()), Op.RecordSuccess(address))
    {
      var i := Find(address);
      if i < |targets| {
        targets[i].consecFail := 0;
      }
    }

    method RecordFailure(address: string)
      requires Valid()
      modifies targets
      ensures Valid() && Contents() == Step(old(Contents()), Op.RecordFailure(address))
    {
      var i := Find(address);
      if i < |targets| {
        var count := HealthyCount();
        targets[i].Fail(count > 1);
        assert Contents() == old(Contents())[i := targets[i].View()];
      }
    }

    method HealthyCount() returns (count: nat)
      ensures count == Targets.HealthyCount(Contents())
    {
      count := 0;
      for i := 0 to |targets|
        invariant Targets.HealthyCount(Contents()) == count + Targets.HealthyCount(Contents()[i..])
      {
        assert Contents()[i..][1..] == Contents()[i + 1..];
        if targets[i].healthy {
          count := count + 1;
        }
      }
    }

    method IsEmpty() returns (empty: bool)
      ensures empty <==> Contents() == []
    {
      empty := |targets| == 0;
    }

    // Choose a target in rotation; `draw` stands for the random source.
    method Select(clientIP: string, draw: nat) returns (selected: BackendTarget?, ghost choice: int)
      requires Valid()
      modifies this`rrCounter
      ensures Valid()
      ensures var hs := Rotation(Contents());
              && rrCounter == (if hs != [] && TakesTicket(strategy, clientIP) then (old(rrCounter) + 1) % 0x1_0000_0000_0000_0000
                               else old(rrCounter))
              && (if hs == [] then selected == null
                  else
                    && Chooses(strategy, hs, old(rrCounter), clientIP, draw, choice)
                    && (selected == null <==> choice < 0)
                    && (selected != null ==> selected in targets && selected.View() == hs[choice]))
    {
      hide Rotation;
      hide Chooses;
      hide TakesTicket;
      var healthy := HealthyTargets();
      if |healthy| == 0 {
        return null, -1;
      }
      selected, choice := SelectFrom(healthy, clientIP, draw);
    }

    // Dispatch on the strategy.
    method SelectFrom(hs: seq<BackendTarget>, clientIP: string, draw: nat)
      returns (selected: BackendTarget?, ghost choice: int)
      requires Valid() && hs != []
      modifies this`rrCounter
      ensures Valid()
      ensures rrCounter == if TakesTicket(strategy, clientIP) then (old(rrCounter) + 1) % TWO_TO_64 else old(rrCounter)
      ensures Chooses(strategy, Views(hs), old(rrCounter), clientIP, draw, choice)
      ensures choice < |hs| && (if choice < 0 then selected == null else selected == hs[choice])
    {
      var k;
      match strategy
      case RoundRobin =>
        k := SelectRoundRobin(hs);
        selected, choice := hs[k], k;
      case Random =>
        k := draw % |hs|;
        selected, choice := hs[k], k;
      case IPHash =>
        k := SelectIPHash(hs, clientIP);
        selected, choice := hs[k], k;
      case LeastConn =>
        selected, choice := SelectLeastConn(hs);
      case WeightedRoundRobin =>
        k := SelectWeightedRoundRobin(hs);
        selected, choice := hs[k], k;
    }

    // Filter healthy targets.
    method HealthyTargets() returns (healthy: seq<BackendTarget>)
      ensures Views(healthy) == Rotation(Contents())
      ensures forall t :: t in healthy ==> t in targets
    {
      healthy := [];
      for i := 0 to |targets|
        invariant forall t :: t in healthy ==> t in targets
        invariant Views(healthy) == Rotation(Contents()[..i])
      {
        assert Contents()[..i + 1][..i] == Contents()[..i];
        if targets[i].healthy {
          assert Views(healthy + [targets[i]]) == Views(healthy) + [targets[i].View()];
          healthy := healthy + [targets[i]];
        }
      }
      assert Contents()[..|targets|] == Contents();
    }

    // Take the next ticket (atomic.AddUint64 wraps).
    method NextTicket() returns (ticket: nat)
      requires Valid()
      modifies this`rrCounter
      ensures Valid() && ticket == old(rrCounter) && rrCounter == (ticket + 1) % TWO_TO_64
    {
      ticket := rrCounter;
      rrCounter := (rrCounter + 1) % TWO_TO_64;
    }

    method SelectRoundRobin(hs: seq<BackendTarget>) returns (k: nat)
      requires Valid() && hs != []
      modifies this`rrCounter
      ensures Valid() && k == old(rrCounter) % |hs| && rrCounter == (old(rrCounter) + 1) % TWO_TO_64
    {
      var idx := NextTicket();
      k := idx % |hs|;
    }

    method SelectIPHash(hs: seq<BackendTarget>, clientIP: string) returns (k: nat)
      requires Valid() && hs != []
      modifies this`rrCounter
      ensures Valid() && k == (if clientIP == "" then old(rrCounter) else AddressHash(clientIP)) % |hs|
      ensures rrCounter == if clientIP == "" then (old(rrCounter) + 1) % TWO_TO_64 else old(rrCounter)
    {
      if clientIP == "" {
        k := SelectRoundRobin(hs);
        return;
      }
      var hash := 0;
      var i := 0;
      while i < |clientIP|
        invariant i <= |clientIP| && hash == AddressHash(clientIP[..i])
      {
        assert clientIP[..i + 1][..i] == clientIP[..i];
        hash := (hash * 31 + clientIP[i] as int) % TWO_TO_64;
        i := i + 1;
      }
      assert clientIP[..i] == clientIP;
      k := hash % |hs|;
    }

    method SelectLeastConn(hs: seq<BackendTarget>) returns (selected: BackendTarget?, ghost choice: int)
      ensures IsLeastConn(Views(hs), choice)
      ensures choice < 0 ==> selected == null
      ensures choice >= 0 ==> selected == hs[choice]
      ensures selected == null <==> forall i :: 0 <= i < |hs| ==> hs[i].activeConns >= MAX_INT_64
      ensures selected != null ==> forall i :: 0 <= i < |hs| ==> selected.activeConns <= hs[i].activeConns
    {
      selected, choice := null, -1;
      var minConns := MAX_INT_64;
      for i := 0 to |hs|
        invariant -1 <= choice < i
        invariant choice < 0 ==> selected == null && minConns == MAX_INT_64
        invariant choice >= 0 ==> selected == hs[choice] && minConns == selected.activeConns < MAX_INT_64
        invariant forall j :: 0 <= j < i ==> minConns <= hs[j].activeConns
        invariant forall j :: 0 <= j < choice ==> minConns < hs[j].activeConns
      {
        if hs[i].activeConns < minConns {
          minConns := hs[i].activeConns;
          selected, choice := hs[i], i;
        }
      }
    }

    method SelectWeightedRoundRobin(hs: seq<BackendTarget>) returns (k: nat)
      requires Valid() && hs != []
      modifies this`rrCounter
      ensures Valid() && k < |hs| && k == Share(Views(hs), old(rrCounter) % TotalWeight(Views(hs)))
      ensures rrCounter == (old(rrCounter) + 1) % TWO_TO_64
    {
      var totalWeight := SumWeights(hs);
      var idx := NextTicket();
      var pos := idx % totalWeight;
      k := FindShare(hs, pos);
    }

    static method SumWeights(hs: seq<BackendTarget>) returns (totalWeight: nat)
      ensures totalWeight == TotalWeight(Views(hs))
    {
      totalWeight := 0;
      for i := 0 to |hs|
        invariant totalWeight == TotalWeight(Views(hs)[..i])
      {
        var w := if hs[i].weight <= 0 then 1 else hs[i].weight;
        totalWeight := totalWeight + w;
        TotalUpTo(Views(hs), i);
      }
      assert Views(hs)[..|hs|] == Views(hs);
    }

    static method FindShare(hs: seq<BackendTarget>, pos: nat) returns (k: nat)
      requires pos < TotalWeight(Views(hs))
      ensures k < |hs| && k == Share(Views(hs), pos)
    {
      ghost var vs := Views(hs);
      assert vs[..|vs|] == vs;
      var cumulative := 0;
      k := 0;
      while k < |hs|
        invariant k <= |hs| && cumulative == TotalWeight(vs[..k]) <= pos
      {
        var w := if hs[k].weight <= 0 then 1 else hs[k].weight;
        cumulative := cumulative + w;
        TotalUpTo(vs, k);
        if pos < cumulative {
          ShareInterval(vs, pos, k);
          return;
        }
        k := k + 1;
      }
      assert false; // the fallback to the first target is never reached
    }
  }

  twostate lemma Untouched(pool: BackendPool)
    requires unchanged(pool`targets) && forall t :: t in pool.targets ==> unchanged(t)
    ensures pool.Contents() == old(pool.Contents())
  {
    forall i | 0 <= i < |pool.targets| ensures pool.Contents()[i] == old(pool.Contents()[i]) {
      var t := pool.targets[i];
      assert t in pool.targets && t.View() == old(t.View());
    }
  }
}
