// internal/router/router.go with internal/router/backend.go: when nobody else touches the
// pool, how many backends round-robin failover reaches before it answers 503.
module Completeness {
  import opened Failover
  import opened Options
  import opened Rota
  import opened Selection
  import opened Targets

  // No interleaved selection or health change.
  ghost predicate Silent(w: World) {
    forall i, m :: w.others(i, m) == []
  }

  predicate Replayable(q: Req) {
    && !q.rewind.Fails?
    && (q.rewind.NoRewind? && q.body.Stream? ==> !q.body.broken && |q.body.content| <= MAX_REPLAY_BODY_SIZE)
  }

  function AddressList(trace: seq<Attempt>): (l: seq<string>)
    ensures |l| == |trace| && forall i :: 0 <= i < |trace| ==> l[i] == trace[i].address
  {
    seq(|trace|, i requires 0 <= i < |trace| => trace[i].address)
  }

  lemma SilentProxied(w: World, s: Progress, i: nat, a: string, b: Body)
    requires Silent(w)
    ensures Proxied(w, s, i, a, b).pool ==
              if w.serve(i, a, b).ok
              then s.pool.(targets := Step(Step(Step(s.pool.targets, RecordRequest(a)), CompleteRequest(a)), RecordSuccess(a)))
              else s.pool.(targets := FailedAttempt(s.pool.targets, a))
  {
    hide Step;
  }

  // A turn of which nobody else takes notice, at place k of the rotation.
  lemma SilentTurn(w: World, s: Progress, i: nat, k: nat) returns (x: Attempt)
    requires Silent(w) && !s.committed && !s.req.rewind.Fails?
    requires k < |Rotation(s.pool.targets)| && k == Choice(s.pool, w.ip, w.draw(i))
    requires Rotation(s.pool.targets)[k].address !in s.tried
    ensures x.address == Rotation(s.pool.targets)[k].address
    ensures var (t, next) := Turn(w, s, i, true);
            && t.trace == s.trace + [x] && t.tried == s.tried + {x.address}
            && x.reply == w.serve(i, x.address, x.seen)
            && (next.Retry? <==> Failed(x)) && (next.Answered? <==> !Failed(x))
            && (Failed(x) ==>
                  && !t.committed && !t.req.rewind.Fails?
                  && t.pool == Drawn(s.pool, w.ip).(targets := FailedAttempt(s.pool.targets, x.address)))
  {
    var a := Rotation(s.pool.targets)[k].address;
    var b := BodyFor(s.req, i).value;
    x := Attempt(a, b, w.serve(i, a, b));
    assert Disturb(s.pool, w.others(i, BeforeSelect)) == s.pool;
    assert Selected(s.pool, w.ip, w.draw(i)) == Some(a);
    assert Drawn(s.pool, w.ip).targets == s.pool.targets;
    var s1 := s.(pool := Drawn(s.pool, w.ip), tried := s.tried + {a});
    SilentProxied(w, s1, i, a, b);
    hide Rotation;
    hide Selected;
    hide Choice;
    hide Drawn;
    hide Disturb;
    hide Apply;
    hide FailedAttempt;
    hide Step;
    hide SentBy;
    hide Committing;
  }

  // No backend in rotation, or one that has been tried.
  lemma SilentStop(w: World, s: Progress, i: nat)
    requires Silent(w)
    requires var hs := Rotation(s.pool.targets);
             hs == [] || (var k := Choice(s.pool, w.ip, w.draw(i)); k >= 0 && hs[k].address in s.tried)
    ensures Turn(w, s, i, true).1 == GiveUp && Turn(w, s, i, true).0.trace == s.trace
  {
    hide Rotation;
    hide Choice;
    hide Drawn;
    hide Apply;
  }

  // The next ticket, short of the wrap.
  lemma NextTicket(p: Pool, ip: string)
    requires p.strategy.RoundRobin? && p.ticket + 1 < TWO_TO_64 && Rotation(p.targets) != []
    ensures Drawn(p, ip) == p.(ticket := p.ticket + 1)
  {
    Arith.SmallMod(p.ticket + 1, TWO_TO_64);
    hide Rotation;
  }

  // An attempt of a run all of whose attempts failed.
  lemma AttemptFailed(w: World, s: Progress, i: nat, max: nat, x: Attempt)
    requires i < max && Turn(w, s, i, true).0.trace == s.trace + [x]
    requires FailedUpTo(Loop(w, s, i, max, true).trace, |Loop(w, s, i, max, true).trace|)
    ensures Failed(x)
  {
    hide Turn;
    hide Failed;
    var (t, next) := Turn(w, s, i, true);
    if next.Retry? {
      LoopExtends(w, t, i + 1, max, true);
    }
    var r := Loop(w, s, i, max, true);
    assert r.trace[|s.trace|] == x;
  }

  // The state in which the loop's further attempts are Tries of the rotation.
  ghost predicate Ready(w: World, s: Progress, i: nat, max: nat) {
    && Silent(w) && s.pool.strategy.RoundRobin? && Distinct(s.pool.targets)
    && i <= max && s.pool.ticket + (max - i) < TWO_TO_64
    && !s.committed && !s.req.rewind.Fails?
  }

  function Left(s: Progress, i: nat, max: nat): seq<string>
    requires i <= max
  {
    Tries(Entries(Rotation(s.pool.targets)), s.pool.ticket, max - i, s.tried)
  }

  // What is left of them once the k-th in rotation has failed.
  lemma LeftAfter(s: Progress, t: Progress, i: nat, max: nat, k: nat)
    requires i < max && Distinct(s.pool.targets)
    requires k < |Rotation(s.pool.targets)| && k == s.pool.ticket % |Rotation(s.pool.targets)|
    requires var a := Rotation(s.pool.targets)[k].address;
             && a !in s.tried && t.tried == s.tried + {a}
             && t.pool.targets == FailedAttempt(s.pool.targets, a) && t.pool.ticket == s.pool.ticket + 1
    ensures Left(s, i, max) == [Rotation(s.pool.targets)[k].address] + Left(t, i + 1, max)
    ensures Distinct(t.pool.targets)
  {
    hide Rotation;
    hide Tries;
    hide FailAt;
    hide FailedAttempt;
    hide Distinct;
    FailedAttemptRotation(s.pool.targets, k);
    TryOne(Entries(Rotation(s.pool.targets)), s.pool.ticket, max - i, s.tried, k);
  }

  // One turn takes the first of them.
  lemma TurnTakes(w: World, s: Progress, i: nat, max: nat, k: nat)
    requires Ready(w, s, i, max) && i < max
    requires k < |Rotation(s.pool.targets)| && k == s.pool.ticket % |Rotation(s.pool.targets)|
    requires Rotation(s.pool.targets)[k].address !in s.tried
    requires FailedUpTo(Loop(w, s, i, max, true).trace, |Loop(w, s, i, max, true).trace|)
    ensures var (t, next) := Turn(w, s, i, true);
            var a := Rotation(s.pool.targets)[k].address;
            && next.Retry? && Ready(w, t, i + 1, max)
            && AddressList(t.trace) == AddressList(s.trace) + [a]
            && Left(s, i, max) == [a] + Left(t, i + 1, max)
  {
    hide Rotation;
    hide Turn;
    hide Failed;
    hide FailedUpTo;
    hide Loop;
    hide Distinct;
    hide FailedAttempt;
    hide Left;
    NextTicket(s.pool, w.ip);
    hide Drawn;
    var x := SilentTurn(w, s, i, k);
    AttemptFailed(w, s, i, max, x);
    LeftAfter(s, Turn(w, s, i, true).0, i, max, k);
  }

  lemma TurnTries(w: World, s: Progress, i: nat, max: nat) returns (a: string)
    requires Ready(w, s, i, max) && i < max
    requires FailedUpTo(Loop(w, s, i, max, true).trace, |Loop(w, s, i, max, true).trace|)
    ensures var (t, next) := Turn(w, s, i, true);
            if next.Retry? then
              && Ready(w, t, i + 1, max)
              && AddressList(t.trace) == AddressList(s.trace) + [a]
              && Left(s, i, max) == [a] + Left(t, i + 1, max)
            else next.GiveUp? && t.trace == s.trace && Left(s, i, max) == []
  {
    hide Turn;
    hide Rotation;
    hide FailedUpTo;
    hide Loop;
    a := "";
    var hs := Rotation(s.pool.targets);
    if hs == [] || hs[s.pool.ticket % |hs|].address in s.tried {
      SilentStop(w, s, i);
    } else {
      var k := s.pool.ticket % |hs|;
      a := hs[k].address;
      hide Left;
      hide Ready;
      TurnTakes(w, s, i, max, k);
    }
  }

  // The loop that ends with nothing committed has tried what the rotation says.
  lemma {:induction false} LoopTries(w: World, s: Progress, i: nat, max: nat)
    requires Ready(w, s, i, max)
    requires FailedUpTo(Loop(w, s, i, max, true).trace, |Loop(w, s, i, max, true).trace|)
    ensures AddressList(Loop(w, s, i, max, true).trace) == AddressList(s.trace) + Left(s, i, max)
    decreases max - i
  {
    hide Turn;
    hide FailedUpTo;
    if i >= max {
    } else {
      var (t, next) := Turn(w, s, i, true);
      var a := TurnTries(w, s, i, max);
      hide Ready;
      hide Left;
      if next.Retry? {
        LoopTries(w, t, i + 1, max);
        assert AddressList(s.trace) + [a] + Left(t, i + 1, max) == AddressList(s.trace) + ([a] + Left(t, i + 1, max));
      }
    }
  }

  // A replayable request keeps being retried.
  lemma PreparedReplayable(p: Pool, q: Req, max: nat)
    requires Replayable(q)
    ensures Prepared(p, q, max).1 && !Prepared(p, q, max).0.rewind.Fails?
  {
    hide HealthyCount;
  }

  lemma HandleTries(w: World, p: Pool, q: Req, max: nat)
    requires Silent(w) && p.strategy.RoundRobin? && Distinct(p.targets) && Replayable(q)
    requires p.ticket + max < TWO_TO_64
    requires FailedUpTo(Handle(w, p, q, max).trace, |Handle(w, p, q, max).trace|)
    ensures AddressList(Handle(w, p, q, max).trace) == Tries(Entries(Rotation(p.targets)), p.ticket, max, {})
  {
    PreparedReplayable(p, q, max);
    hide Prepared;
    hide Rotation;
    hide Tries;
    hide FailedUpTo;
    hide Distinct;
    hide Loop;
    var s := Progress(p, Prepared(p, q, max).0, {}, [], [], false);
    LoopTries(w, s, 0, max);
    assert AddressList(s.trace) + Left(s, 0, max) == Left(s, 0, max);
  }

  // The rotation no turn of which is one failure from losing only some of its targets.
  predicate Even(ts: seq<Target>, max: nat) {
    var r := Entries(Rotation(ts));
    Least(max, |r|) <= 2 || AllFresh(r) || AllWorn(r)
  }

  lemma EntriesDistinct(ts: seq<Target>)
    requires Distinct(ts)
    ensures DistinctEntries(Entries(Rotation(ts)))
  {
    RotationDistinct(ts);
    hide Rotation;
  }

  // The loop gives up on a replayable request only after min(max, n) distinct backends; so
  // with max >= n it answers 503 only if every backend in rotation failed uncommitted.
  lemma AnswersUnavailableOnlyWhen(w: World, p: Pool, q: Req, max: nat)
    requires Silent(w) && p.strategy.RoundRobin? && Distinct(p.targets) && Replayable(q)
    requires p.ticket + max < TWO_TO_64 && Even(p.targets, max)
    ensures var trace, hs := Handle(w, p, q, max).trace, Rotation(p.targets);
            FailedUpTo(trace, |trace|) ==>
              && |trace| == Least(max, |hs|)
              && DistinctAddresses(trace)
              && (max >= |hs| ==> forall k :: 0 <= k < |hs| ==> hs[k].address in Addresses(trace))
  {
    if FailedUpTo(Handle(w, p, q, max).trace, |Handle(w, p, q, max).trace|) {
      GaveUpAfterAll(w, p, q, max);
    }
  }

  lemma GaveUpAfterAll(w: World, p: Pool, q: Req, max: nat)
    requires Silent(w) && p.strategy.RoundRobin? && Distinct(p.targets) && Replayable(q)
    requires p.ticket + max < TWO_TO_64 && Even(p.targets, max)
    requires FailedUpTo(Handle(w, p, q, max).trace, |Handle(w, p, q, max).trace|)
    ensures var trace, hs := Handle(w, p, q, max).trace, Rotation(p.targets);
            && |trace| == Least(max, |hs|)
            && DistinctAddresses(trace)
            && (max >= |hs| ==> forall k :: 0 <= k < |hs| ==> hs[k].address in Addresses(trace))
  {
    HandleTries(w, p, q, max);
    OneRequest(w, p, q, max);
    var trace := Handle(w, p, q, max).trace;
    var r := Entries(Rotation(p.targets));
    EntriesDistinct(p.targets);
    CompleteExactlyWhen(r, max);
    assert |Tries(r, p.ticket, max, {})| == Least(max, |r|);
    TriesWithin(r, p.ticket, max, {});
    hide Handle;
    hide Tries;
    hide Rotation;
    if max >= |r| {
      AllCovered(r, trace);
    }
  }

  ghost predicate AllIn(l: seq<string>, r: seq<Entry>) {
    forall j :: 0 <= j < |l| ==> exists i :: 0 <= i < |r| && r[i].address == l[j]
  }

  lemma AllInFront(a: string, l: seq<string>, r: seq<Entry>, k: nat, s: seq<Entry>)
    requires k < |r| && r[k].address == a && AllIn(l, s)
    requires forall i :: 0 <= i < |s| ==> exists j :: 0 <= j < |r| && r[j].address == s[i].address
    ensures AllIn([a] + l, r)
  {
    forall j | 0 <= j < 1 + |l| ensures exists i :: 0 <= i < |r| && r[i].address == ([a] + l)[j] {
      if j == 0 {
        assert r[k].address == ([a] + l)[j];
      } else {
        assert l[j - 1] == ([a] + l)[j];
      }
    }
  }

  // What is tried is in rotation.
  lemma {:induction false} TriesWithin(r: seq<Entry>, ticket: nat, left: nat, tried: set<string>)
    ensures AllIn(Tries(r, ticket, left, tried), r)
    decreases left
  {
    hide AllIn;
    hide FailAt;
    if left == 0 || r == [] || r[ticket % |r|].address in tried {
      NothingTried(r, ticket, left, tried);
    } else {
      var k := ticket % |r|;
      TryOne(r, ticket, left, tried, k);
      hide Tries;
      FailAtKeeps(r, k);
      var after := tried + {r[k].address};
      TriesWithin(FailAt(r, k), ticket + 1, left - 1, after);
      AllInFront(r[k].address, Tries(FailAt(r, k), ticket + 1, left - 1, after), r, k, FailAt(r, k));
    }
  }

  lemma NothingTried(r: seq<Entry>, ticket: nat, left: nat, tried: set<string>)
    requires left == 0 || r == [] || r[ticket % |r|].address in tried
    ensures AllIn(Tries(r, ticket, left, tried), r)
  {
  }

  // As many distinct addresses of the rotation as it has: all of them.
  lemma AllCovered(r: seq<Entry>, trace: seq<Attempt>)
    requires DistinctAddresses(trace) && |trace| == |r|
    requires AllIn(AddressList(trace), r)
    ensures forall i :: 0 <= i < |r| ==> r[i].address in Addresses(trace)
  {
    CountAddresses(trace);
    var l := seq(|r|, i requires 0 <= i < |r| => r[i].address);
    var home := Elements(l);
    forall i | 0 <= i < |r| ensures r[i].address in home {
      assert l[i] in home;
    }
    forall a | a in Addresses(trace) ensures a in home {
      var j :| 0 <= j < |trace| && trace[j].address == a;
      assert AddressList(trace)[j] == a;
    }
    SubsetCount(Addresses(trace), home);
  }

  // Every attempt fails without committing anything.
  ghost predicate AllDown(w: World) {
    forall i, a, b :: !w.serve(i, a, b).ok && !Committing(w.serve(i, a, b).actions)
  }

  // From every ticket that does not wrap, min(max, n) backends are tried.
  ghost predicate ReachesAll(w: World, ts: seq<Target>, strategy: Strategy, q: Req, max: nat) {
    forall ticket: nat | ticket + max < TWO_TO_64 ::
      |Handle(w, Pool(ts, strategy, ticket), q, max).trace| == Least(max, |Rotation(ts)|)
  }

  lemma DownTries(w: World, p: Pool, q: Req, max: nat)
    requires Silent(w) && AllDown(w) && p.strategy.RoundRobin? && Distinct(p.targets) && Replayable(q)
    requires p.ticket + max < TWO_TO_64
    ensures |Handle(w, p, q, max).trace| == |Tries(Entries(Rotation(p.targets)), p.ticket, max, {})|
  {
    OneRequest(w, p, q, max);
    HandleTries(w, p, q, max);
  }

  lemma EvenReachesAll(w: World, ts: seq<Target>, q: Req, max: nat)
    requires Silent(w) && AllDown(w) && Distinct(ts) && Replayable(q) && Even(ts, max)
    ensures ReachesAll(w, ts, RoundRobin, q, max)
  {
    var r := Entries(Rotation(ts));
    EntriesDistinct(ts);
    CompleteExactlyWhen(r, max);
    hide Rotation;
    hide Handle;
    hide Tries;
    hide Distinct;
    hide AllDown;
    hide Silent;
    forall ticket: nat | ticket + max < TWO_TO_64
      ensures |Handle(w, Pool(ts, RoundRobin, ticket), q, max).trace| == Least(max, |Rotation(ts)|)
    {
      DownTries(w, Pool(ts, RoundRobin, ticket), q, max);
      assert |Tries(r, ticket, max, {})| == Least(max, |r|);
    }
  }

  // A fresh target followed by a worn one: some ticket ends the request after two attempts.
  lemma UnevenGivesUpEarly(w: World, ts: seq<Target>, q: Req, max: nat) returns (ticket: nat)
    requires Silent(w) && AllDown(w) && Distinct(ts) && Replayable(q) && !Even(ts, max)
    ensures ticket < Pairs(|Rotation(ts)|)
    ensures ticket + max < TWO_TO_64 ==> |Handle(w, Pool(ts, RoundRobin, ticket), q, max).trace| == 2
  {
    hide Pairs;
    EntriesDistinct(ts);
    ticket := UnevenTicket(Entries(Rotation(ts)), max);
    hide Rotation;
    hide Handle;
    hide Tries;
    hide Distinct;
    hide AllDown;
    hide Silent;
    if ticket + max < TWO_TO_64 {
      DownTries(w, Pool(ts, RoundRobin, ticket), q, max);
    }
  }

  // With all backends down, failover reaches as many as it may, from every ticket, exactly
  // when at most two are in question, or no target in rotation is one failure from ejection,
  // or all of them are.
  lemma FailoverCompleteExactlyWhen(w: World, ts: seq<Target>, q: Req, max: nat)
    requires Silent(w) && AllDown(w) && Distinct(ts) && Replayable(q)
    requires Pairs(|Rotation(ts)|) + max <= TWO_TO_64
    ensures ReachesAll(w, ts, RoundRobin, q, max) <==> Even(ts, max)
  {
    hide Pairs;
    hide Handle;
    hide Rotation;
    hide Distinct;
    hide Silent;
    hide AllDown;
    hide AllFresh;
    hide AllWorn;
    if Even(ts, max) {
      EvenReachesAll(w, ts, q, max);
    } else {
      var ticket := UnevenGivesUpEarly(w, ts, q, max);
      assert |Handle(w, Pool(ts, RoundRobin, ticket), q, max).trace| != Least(max, |Rotation(ts)|);
    }
  }

  // By client address the choice depends on the rotation alone.

  lemma HashChoice(p: Pool, ip: string, draw: nat)
    requires p.strategy.IPHash? && ip != "" && Rotation(p.targets) != []
    ensures Choice(p, ip, draw) == AddressHash(ip) % |Rotation(p.targets)| && Drawn(p, ip) == p
  {
    hide Rotation;
    hide AddressHash;
  }

  // After a failed attempt at place k, the address gives k again unless the target was ejected.
  lemma HashAgain(p: Pool, ip: string, draw: nat, k: nat)
    requires p.strategy.IPHash? && ip != "" && Distinct(p.targets)
    requires k < |Rotation(p.targets)| && k == AddressHash(ip) % |Rotation(p.targets)|
    ensures var a := Rotation(p.targets)[k].address;
            var q := p.(targets := FailedAttempt(p.targets, a));
            var hs := Rotation(q.targets);
            hs != [] && Choice(q, ip, draw) >= 0
            && (hs[Choice(q, ip, draw)].address != a <==>
                  |Rotation(p.targets)| > 1 && Worn(Entries(Rotation(p.targets))[k]))
  {
    var r := Entries(Rotation(p.targets));
    EntriesDistinct(p.targets);
    FailedAttemptRotation(p.targets, k);
    hide Rotation;
    hide FailedAttempt;
    hide Distinct;
    var q := p.(targets := FailedAttempt(p.targets, r[k].address));
    var hs := Rotation(q.targets);
    assert Entries(hs) == FailAt(r, k);
    HashChoice(q, ip, draw);
    hide Choice;
    var c := Choice(q, ip, draw);
    assert hs[c].address == FailAt(r, k)[c].address;
    hide Worn;
  }

  // The second attempt is made exactly if the choice has not been tried.
  lemma SecondAttempt(w: World, t: Progress, max: nat)
    requires Silent(w) && max > 1 && !t.committed && !t.req.rewind.Fails?
    requires Rotation(t.pool.targets) != [] && Choice(t.pool, w.ip, w.draw(1)) >= 0
    ensures |Loop(w, t, 1, max, true).trace| > |t.trace| <==>
              Rotation(t.pool.targets)[Choice(t.pool, w.ip, w.draw(1))].address !in t.tried
  {
    hide Turn;
    hide Rotation;
    hide Choice;
    hide FailedAttempt;
    hide Drawn;
    var c := Choice(t.pool, w.ip, w.draw(1));
    if Rotation(t.pool.targets)[c].address in t.tried {
      SilentStop(w, t, 1);
    } else {
      var y := SilentTurn(w, t, 1, c);
      var (u, next) := Turn(w, t, 1, true);
      if next.Retry? {
        LoopExtends(w, u, 2, max, true);
      }
    }
  }

  // The first attempt of a request whose backends are all down.
  lemma FirstAttempt(w: World, p: Pool, q: Req, max: nat, k: nat) returns (t: Progress)
    requires Silent(w) && AllDown(w) && Replayable(q) && max > 1
    requires k < |Rotation(p.targets)| && k == Choice(p, w.ip, w.draw(0))
    ensures var a := Rotation(p.targets)[k].address;
            && Handle(w, p, q, max) == Loop(w, t, 1, max, true)
            && |t.trace| == 1 && t.tried == {a} && !t.committed && !t.req.rewind.Fails?
            && t.pool == Drawn(p, w.ip).(targets := FailedAttempt(p.targets, a))
  {
    hide Turn;
    hide Rotation;
    hide Choice;
    hide FailedAttempt;
    hide Drawn;
    PreparedReplayable(p, q, max);
    hide Prepared;
    var s := Progress(p, Prepared(p, q, max).0, {}, [], [], false);
    var x := SilentTurn(w, s, 0, k);
    t := Turn(w, s, 0, true).0;
  }

  // By client address, a request whose first backend fails is tried elsewhere exactly when
  // that failure ejected the backend.
  lemma HashFailsOverExactlyWhen(w: World, p: Pool, q: Req, max: nat)
    requires Silent(w) && AllDown(w) && Distinct(p.targets) && Replayable(q)
    requires p.strategy.IPHash? && w.ip != "" && Rotation(p.targets) != [] && max > 1
    ensures var r := Entries(Rotation(p.targets));
            |Handle(w, p, q, max).trace| > 1 <==> |r| > 1 && Worn(r[AddressHash(w.ip) % |r|])
  {
    hide Rotation;
    hide Handle;
    hide Loop;
    hide FailedAttempt;
    hide Worn;
    hide Distinct;
    HashChoice(p, w.ip, w.draw(0));
    hide Drawn;
    hide AddressHash;
    var k := AddressHash(w.ip) % |Rotation(p.targets)|;
    var t := FirstAttempt(w, p, q, max, k);
    HashAgain(p, w.ip, w.draw(1), k);
    hide Choice;
    SecondAttempt(w, t, max);
  }
}
