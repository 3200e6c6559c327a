// internal/router/router.go with internal/router/backend.go: how far failover gets under the
// strategies that choose the same target again until it is ejected, and under weights.
module Sticky {
  import opened Completeness
  import opened Failover
  import opened Options
  import opened Rota
  import opened Selection
  import opened Targets

  // Selection by client address, or by the fewest connections: an attempt that is over
  // leaves no trace in what the choice depends on.
  predicate SameAgain(p: Pool, ip: string) {
    (p.strategy.IPHash? && ip != "") || p.strategy.LeastConn?
  }

  predicate Ejects(hs: seq<Target>, k: nat)
    requires k < |hs|
  {
    |hs| > 1 && hs[k].consecFail + 1 >= PASSIVE_EJECT_THRESHOLD
  }

  // The rotation after a failed attempt at place k.
  function FailedAt(hs: seq<Target>, k: nat): seq<Target>
    requires k < |hs|
  {
    if Ejects(hs, k) then hs[..k] + hs[k + 1..] else hs[k := FailedTarget(hs[k], |hs| > 1)]
  }

  // The chain of choices, each of which is ejected but perhaps the last.
  ghost function Chain(p: Pool, ip: string, left: nat): seq<string>
    decreases left
  {
    var hs := Rotation(p.targets);
    if left == 0 || hs == [] || Choice(p, ip, 0) < 0 then []
    else
      var k := Choice(p, ip, 0);
      var rest := p.(targets := FailedAttempt(p.targets, hs[k].address));
      [hs[k].address] + if Ejects(hs, k) then Chain(rest, ip, left - 1) else []
  }

  lemma DrawIgnored(p: Pool, ip: string, draw: nat)
    requires SameAgain(p, ip) && Rotation(p.targets) != []
    ensures Choice(p, ip, draw) == Choice(p, ip, 0) && Drawn(p, ip) == p
  {
    hide Rotation;
    hide LeastBusy;
    hide AddressHash;
  }

  // The fewest connections are found where they were, whatever else has changed.
  lemma BusyAgain(hs: seq<Target>, us: seq<Target>)
    requires |us| == |hs| && forall i :: 0 <= i < |hs| ==> us[i].activeConns == hs[i].activeConns
    ensures LeastBusy(us) == LeastBusy(hs)
  {
    var c, d := LeastBusy(hs), LeastBusy(us);
    hide LeastBusy;
    assert IsLeastConn(us, c) && IsLeastConn(us, d);
    if c >= 0 && d >= 0 {
      assert us[c].activeConns <= us[d].activeConns && us[d].activeConns <= us[c].activeConns;
    }
  }

  lemma ChosenAgain(p: Pool, q: Pool, ip: string)
    requires SameAgain(p, ip) && q.strategy == p.strategy
    requires var hs, us := Rotation(p.targets), Rotation(q.targets);
             && hs != [] && |us| == |hs|
             && forall i :: 0 <= i < |hs| ==> us[i].activeConns == hs[i].activeConns
    ensures Choice(q, ip, 0) == Choice(p, ip, 0)
  {
    if p.strategy.LeastConn? {
      BusyAgain(Rotation(p.targets), Rotation(q.targets));
    }
    hide Rotation;
    hide LeastBusy;
    hide AddressHash;
  }

  // What a failed attempt at place k leaves: a rotation without it, or the same places.
  lemma AfterAttempt(ts: seq<Target>, k: nat)
    requires Distinct(ts) && k < |Rotation(ts)|
    ensures var hs := Rotation(ts);
            var after := FailedAttempt(ts, hs[k].address);
            && Distinct(after)
            && Rotation(after) == FailedAt(hs, k)
  {
    hide Rotation;
    hide Distinct;
    hide FailedAttempt;
    var hs := Rotation(ts);
    FailedAttemptTargets(ts, k);
    var t := FailedTarget(hs[k], |hs| > 1);
    assert t.healthy <==> !Ejects(hs, k);
    hide FailedTarget;
    hide Ejects;
    Spliced(hs, k, t);
  }

  lemma Spliced(hs: seq<Target>, k: nat, t: Target)
    requires k < |hs|
    ensures hs[..k] + (if t.healthy then [t] else []) + hs[k + 1..]
         == if t.healthy then hs[k := t] else hs[..k] + hs[k + 1..]
  {
  }

  // What a failed attempt at the choice leaves: the same choice, or a rotation without it.
  lemma AfterChoice(p: Pool, ip: string)
    requires SameAgain(p, ip) && Distinct(p.targets) && Rotation(p.targets) != [] && Choice(p, ip, 0) >= 0
    ensures var hs, k := Rotation(p.targets), Choice(p, ip, 0);
            var q := p.(targets := FailedAttempt(p.targets, hs[k].address));
            var us := Rotation(q.targets);
            && Distinct(q.targets)
            && if Ejects(hs, k) then us == hs[..k] + hs[k + 1..]
               else us != [] && Choice(q, ip, 0) == k < |us| && us[k].address == hs[k].address
  {
    hide Rotation;
    hide Choice;
    hide Distinct;
    hide FailedAttempt;
    hide Ejects;
    var hs, k := Rotation(p.targets), Choice(p, ip, 0);
    AfterAttempt(p.targets, k);
    if !Ejects(hs, k) {
      ChosenAgain(p, p.(targets := FailedAttempt(p.targets, hs[k].address)), ip);
    }
  }

  ghost predicate NoneTried(hs: seq<Target>, tried: set<string>) {
    forall i :: 0 <= i < |hs| ==> hs[i].address !in tried
  }

  lemma StillNoneTried(hs: seq<Target>, k: nat, tried: set<string>)
    requires Distinct(hs) && NoneTried(hs, tried) && k < |hs|
    ensures NoneTried(hs[..k] + hs[k + 1..], tried + {hs[k].address})
  {
    var us := hs[..k] + hs[k + 1..];
    forall i | 0 <= i < |us| ensures us[i].address !in tried + {hs[k].address} {
      assert us[i] == hs[if i < k then i else i + 1];
    }
  }

  // The state from which the loop's further attempts are the chain.
  ghost predicate Ready(w: World, s: Progress) {
    && Silent(w) && AllDown(w) && SameAgain(s.pool, w.ip) && Distinct(s.pool.targets)
    && NoneTried(Rotation(s.pool.targets), s.tried)
    && !s.committed && !s.req.rewind.Fails?
  }

  // One turn takes the first link.
  lemma TurnLinks(w: World, s: Progress, i: nat, k: nat)
    requires Ready(w, s) && Rotation(s.pool.targets) != [] && k == Choice(s.pool, w.ip, 0)
    ensures var (t, next) := Turn(w, s, i, true);
            var hs, a := Rotation(s.pool.targets), Rotation(s.pool.targets)[k].address;
            && next.Retry? && AddressList(t.trace) == AddressList(s.trace) + [a]
            && t.pool == s.pool.(targets := FailedAttempt(s.pool.targets, a))
            && !t.committed && !t.req.rewind.Fails? && t.tried == s.tried + {a}
  {
    DrawIgnored(s.pool, w.ip, w.draw(i));
    hide Rotation;
    hide Choice;
    hide FailedAttempt;
    hide Distinct;
    var x := SilentTurn(w, s, i, k);
    hide Turn;
  }

  // After an attempt that ejected nobody the loop gives up.
  lemma SameStops(w: World, t: Progress, i: nat, max: nat)
    requires Silent(w) && SameAgain(t.pool, w.ip) && Rotation(t.pool.targets) != []
    requires var k := Choice(t.pool, w.ip, 0); k >= 0 && Rotation(t.pool.targets)[k].address in t.tried
    ensures Loop(w, t, i, max, true).trace == t.trace
  {
    DrawIgnored(t.pool, w.ip, w.draw(i));
    SilentStop(w, t, i);
    hide Turn;
    hide Rotation;
    hide Choice;
  }

  lemma NoneChosen(w: World, s: Progress, i: nat, max: nat)
    requires Silent(w) && SameAgain(s.pool, w.ip)
    requires Rotation(s.pool.targets) == [] || Choice(s.pool, w.ip, 0) < 0
    ensures Loop(w, s, i, max, true).trace == s.trace
  {
    if Rotation(s.pool.targets) != [] {
      DrawIgnored(s.pool, w.ip, w.draw(i));
    }
    hide Rotation;
    hide Choice;
    hide Drawn;
    hide Proxied;
  }

  lemma {:induction false} LoopLinks(w: World, s: Progress, i: nat, max: nat)
    requires Ready(w, s) && i <= max
    ensures AddressList(Loop(w, s, i, max, true).trace) == AddressList(s.trace) + Chain(s.pool, w.ip, max - i)
    decreases max - i
  {
    hide Turn;
    hide Rotation;
    hide Choice;
    hide FailedAttempt;
    if i >= max {
      assert AddressList(s.trace) + [] == AddressList(s.trace);
    } else if Rotation(s.pool.targets) == [] || Choice(s.pool, w.ip, 0) < 0 {
      NoneChosen(w, s, i, max);
      assert AddressList(s.trace) + [] == AddressList(s.trace);
    } else {
      var hs, k := Rotation(s.pool.targets), Choice(s.pool, w.ip, 0);
      TurnLinks(w, s, i, k);
      AfterChoice(s.pool, w.ip);
      var t := Turn(w, s, i, true).0;
      if Ejects(hs, k) {
        RotationDistinct(s.pool.targets);
        StillNoneTried(hs, k, s.tried);
        hide Distinct;
        hide NoneTried;
        hide Silent;
        hide AllDown;
        LoopLinks(w, t, i + 1, max);
        assert AddressList(s.trace) + [hs[k].address] + Chain(t.pool, w.ip, max - i - 1)
            == AddressList(s.trace) + ([hs[k].address] + Chain(t.pool, w.ip, max - i - 1));
      } else {
        SameStops(w, t, i + 1, max);
        assert [hs[k].address] + [] == [hs[k].address];
      }
    }
  }

  // With all backends down, a request under one of these strategies tries the chain: one
  // backend after another as long as each attempt ejects the one it was made at.
  lemma TriesChain(w: World, p: Pool, q: Req, max: nat)
    requires Silent(w) && AllDown(w) && Distinct(p.targets) && Replayable(q) && SameAgain(p, w.ip)
    ensures AddressList(Handle(w, p, q, max).trace) == Chain(p, w.ip, max)
  {
    PreparedReplayable(p, q, max);
    hide Prepared;
    hide Chain;
    hide Loop;
    var s := Progress(p, Prepared(p, q, max).0, {}, [], [], false);
    LoopLinks(w, s, 0, max);
    assert AddressList(s.trace) + Chain(p, w.ip, max) == Chain(p, w.ip, max);
  }

  // How long the chain is.

  predicate AllEject(hs: seq<Target>) {
    forall k :: 0 <= k < |hs| ==> hs[k].consecFail + 1 >= PASSIVE_EJECT_THRESHOLD
  }

  // No connection count has reached the largest 64-bit integer.
  predicate Countable(s: Strategy, hs: seq<Target>) {
    s.LeastConn? ==> forall i :: 0 <= i < |hs| ==> hs[i].activeConns < MAX_INT_64
  }

  lemma SomeChoice(p: Pool, ip: string)
    requires SameAgain(p, ip) && Rotation(p.targets) != [] && Countable(p.strategy, Rotation(p.targets))
    ensures Choice(p, ip, 0) >= 0
  {
    var hs := Rotation(p.targets);
    assert p.strategy.LeastConn? ==> hs[0].activeConns < MAX_INT_64;
    hide Rotation;
    hide LeastBusy;
    hide AddressHash;
  }

  lemma DropKeeps(p: Pool, hs: seq<Target>, k: nat)
    requires k < |hs|
    ensures var us := hs[..k] + hs[k + 1..];
            && |us| == |hs| - 1
            && (AllEject(hs) ==> AllEject(us)) && (Countable(p.strategy, hs) ==> Countable(p.strategy, us))
  {
    var us := hs[..k] + hs[k + 1..];
    assert forall i :: 0 <= i < |us| ==> us[i] == hs[if i < k then i else i + 1];
  }

  // With every target one failure from ejection it reaches all that may be tried.
  lemma {:induction false} WornChain(p: Pool, ip: string, left: nat)
    requires SameAgain(p, ip) && Distinct(p.targets)
    requires AllEject(Rotation(p.targets)) && Countable(p.strategy, Rotation(p.targets))
    ensures |Chain(p, ip, left)| == Least(left, |Rotation(p.targets)|)
    decreases left
  {
    hide Rotation;
    hide Choice;
    hide FailedAttempt;
    hide Distinct;
    hide Countable;
    var hs := Rotation(p.targets);
    if left == 0 || hs == [] {
    } else {
      SomeChoice(p, ip);
      var k := Choice(p, ip, 0);
      AfterChoice(p, ip);
      if |hs| > 1 {
        DropKeeps(p, hs, k);
        hide AllEject;
        WornChain(p.(targets := FailedAttempt(p.targets, hs[k].address)), ip, left - 1);
      }
    }
  }

  // A second backend is tried exactly when the first failure ejects the first.
  lemma SecondLinkExactlyWhen(p: Pool, ip: string, left: nat)
    requires SameAgain(p, ip) && Distinct(p.targets) && left > 1
    requires Rotation(p.targets) != [] && Countable(p.strategy, Rotation(p.targets))
    ensures Choice(p, ip, 0) >= 0
    ensures |Chain(p, ip, left)| > 1 <==> Ejects(Rotation(p.targets), Choice(p, ip, 0))
  {
    hide Rotation;
    hide Choice;
    hide FailedAttempt;
    hide Distinct;
    hide Countable;
    SomeChoice(p, ip);
    var hs, k := Rotation(p.targets), Choice(p, ip, 0);
    AfterChoice(p, ip);
    if Ejects(hs, k) {
      var q := p.(targets := FailedAttempt(p.targets, hs[k].address));
      DropKeeps(p, hs, k);
      FirstLink(p, q, ip, left - 1, hs[..k] + hs[k + 1..]);
    }
  }

  lemma FirstLink(p: Pool, q: Pool, ip: string, left: nat, us: seq<Target>)
    requires SameAgain(p, ip) && q.strategy == p.strategy && left > 0
    requires Rotation(q.targets) == us && us != [] && Countable(p.strategy, us)
    ensures Chain(q, ip, left) != []
  {
    hide Rotation;
    hide Choice;
    SomeChoice(q, ip);
  }

  // Weighted round-robin.

  lemma {:induction false} SameShare(hs: seq<Target>, us: seq<Target>, pos: nat)
    requires |us| == |hs| && (forall i :: 0 <= i < |hs| ==> us[i].weight == hs[i].weight)
    ensures TotalWeight(us) == TotalWeight(hs)
    ensures pos < TotalWeight(hs) ==> Share(us, pos) == Share(hs, pos)
  {
    if hs == [] {
    } else {
      var w := Effective(hs[0].weight);
      SameShare(hs[1..], us[1..], if pos < w then 0 else pos - w);
    }
  }

  // The next ticket is for the same target unless this one was the last of its share.
  lemma NextShare(hs: seq<Target>, ticket: nat)
    requires hs != []
    ensures var w := TotalWeight(hs);
            var k := Share(hs, ticket % w);
            Share(hs, (ticket + 1) % w) != k <==> |hs| > 1 && ticket % w + 1 == TotalWeight(hs[..k + 1])
  {
    var w := TotalWeight(hs);
    var pos := ticket % w;
    var k := Share(hs, pos);
    var next := if pos + 1 == w then 0 else pos + 1;
    assert (ticket + 1) % w == next by {
      NextPosition(ticket, w);
    }
    ShareInterval(hs, pos, k);
    ShareInterval(hs, next, k);
    TotalUpTo(hs, k);
    assert hs == hs[..k + 1] + hs[k + 1..];
    TotalSplit(hs[..k + 1], hs[k + 1..]);
    if k > 0 {
      assert hs[..k] != [];
    }
  }

  lemma NextPosition(ticket: nat, w: nat)
    requires w > 0
    ensures (ticket + 1) % w == if ticket % w + 1 == w then 0 else ticket % w + 1
  {
    var q, r := ticket / w, ticket % w;
    assert ticket == q * w + r;
    if r + 1 == w {
      assert ticket + 1 == (q + 1) * w;
      Arith.ModUnique(ticket + 1, w, q + 1, 0);
    } else {
      Arith.ModUnique(ticket + 1, w, q, r + 1);
    }
  }

  // By weights, with all backends down, a second backend is tried exactly when the first
  // failure ejects the first, or the ticket was the last of its share.
  lemma WeightedFailsOverExactlyWhen(w: World, p: Pool, q: Req, max: nat)
    requires Silent(w) && AllDown(w) && Distinct(p.targets) && Replayable(q) && max > 1
    requires p.strategy.WeightedRoundRobin? && p.ticket + 1 < TWO_TO_64 && Rotation(p.targets) != []
    ensures var hs := Rotation(p.targets);
            var pos := p.ticket % TotalWeight(hs);
            var k := Share(hs, pos);
            |Handle(w, p, q, max).trace| > 1 <==>
              Ejects(hs, k) || (|hs| > 1 && pos + 1 == TotalWeight(hs[..k + 1]))
  {
    hide Rotation;
    hide Choice;
    hide Distinct;
    hide Handle;
    hide Loop;
    hide FailedAttempt;
    hide Drawn;
    hide Share;
    hide TotalWeight;
    var hs := Rotation(p.targets);
    var k := Share(hs, p.ticket % TotalWeight(hs));
    WeightedChoice(p, w.ip, w.draw(0));
    var t := FirstAttempt(w, p, q, max, k);
    WeightedAfter(p, w.ip, w.draw(1), k);
    SecondAttempt(w, t, max);
  }

  lemma WeightedChoice(p: Pool, ip: string, draw: nat)
    requires p.strategy.WeightedRoundRobin? && Rotation(p.targets) != []
    ensures Choice(p, ip, draw) == Share(Rotation(p.targets), p.ticket % TotalWeight(Rotation(p.targets)))
    ensures p.ticket + 1 < TWO_TO_64 ==> Drawn(p, ip) == p.(ticket := p.ticket + 1)
  {
    hide Rotation;
    hide Share;
    hide TotalWeight;
    if p.ticket + 1 < TWO_TO_64 {
      Arith.SmallMod(p.ticket + 1, TWO_TO_64);
    }
  }

  // The choice after a failed attempt at place k that ejected nobody ...
  lemma WeightedSame(hs: seq<Target>, us: seq<Target>, k: nat, t: Target, ticket: nat)
    requires Distinct(hs) && hs != [] && k == Share(hs, ticket % TotalWeight(hs))
    requires us == hs[k := t] && t.address == hs[k].address && t.weight == hs[k].weight
    ensures us[Share(us, (ticket + 1) % TotalWeight(us))].address != hs[k].address <==>
              |hs| > 1 && ticket % TotalWeight(hs) + 1 == TotalWeight(hs[..k + 1])
  {
    SameShare(hs, us, (ticket + 1) % TotalWeight(hs));
    NextShare(hs, ticket);
    hide TotalWeight;
    var c := Share(us, (ticket + 1) % TotalWeight(us));
    hide Share;
    assert us[c].address == hs[c].address;
  }

  // ... and after one that did.
  lemma WeightedGone(hs: seq<Target>, us: seq<Target>, k: nat, c: nat)
    requires Distinct(hs) && k < |hs| && us == hs[..k] + hs[k + 1..] && c < |us|
    ensures us[c].address != hs[k].address
  {
    assert us[c] == hs[if c < k then c else c + 1];
  }

  lemma WeightedAfter(p: Pool, ip: string, draw: nat, k: nat)
    requires p.strategy.WeightedRoundRobin? && Distinct(p.targets) && p.ticket + 1 < TWO_TO_64
    requires Rotation(p.targets) != []
    requires k == Share(Rotation(p.targets), p.ticket % TotalWeight(Rotation(p.targets)))
    ensures var hs := Rotation(p.targets);
            var a := hs[k].address;
            var q := Drawn(p, ip).(targets := FailedAttempt(p.targets, a));
            var us := Rotation(q.targets);
            us != [] && Choice(q, ip, draw) >= 0
            && (us[Choice(q, ip, draw)].address != a <==>
                  Ejects(hs, k) || (|hs| > 1 && p.ticket % TotalWeight(hs) + 1 == TotalWeight(hs[..k + 1])))
  {
    hide Rotation;
    hide FailedAttempt;
    hide Distinct;
    hide Share;
    hide TotalWeight;
    hide Choice;
    hide Drawn;
    var hs := Rotation(p.targets);
    RotationDistinct(p.targets);
    AfterAttempt(p.targets, k);
    WeightedChoice(p, ip, draw);
    var q := Drawn(p, ip).(targets := FailedAttempt(p.targets, hs[k].address));
    var us := Rotation(q.targets);
    assert us != [];
    WeightedChoice(q, ip, draw);
    if Ejects(hs, k) {
      WeightedGone(hs, us, k, Choice(q, ip, draw));
    } else {
      WeightedSame(hs, us, k, FailedTarget(hs[k], |hs| > 1), p.ticket);
    }
  }
}
