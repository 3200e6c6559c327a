// internal/router/failover.go, internal/router/router.go: what of the request body each
// attempted backend sees.
module Replay {
  import opened Failover
  import opened Options
  import opened Selection
  import opened Targets

  // A body whose read does not fail, and whose GetBody, if any, returns it.
  predicate Intact(q: Req) {
    q.body.Stream? && !q.body.broken && (q.rewind.NoRewind? || q.rewind == Copy(q.body.content))
  }

  ghost predicate AllSee(trace: seq<Attempt>, b: Body) {
    forall k :: 0 <= k < |trace| ==> trace[k].seen == b
  }

  // Bodies that can be sent again.

  lemma {:induction false} LoopReplays(w: World, s: Progress, i: nat, max: nat, canRetry: bool, b: Body)
    requires AllSee(s.trace, b) && b.Stream? && !b.broken
    requires i == 0 ==> s.req.body == b
    requires i > 0 || canRetry ==> s.req.rewind == Copy(b.content)
    ensures var r := Loop(w, s, i, max, canRetry);
            AllSee(r.trace, b) && (!canRetry ==> |r.trace| <= |s.trace| + 1)
    decreases max - i
  {
    hide Turn;
    hide MakeReplayable;
    if i >= max {
    } else {
      var (t, next) := Turn(w, s, i, canRetry);
      TurnSends(w, s, i, canRetry);
      assert AllSee(t.trace, b) by {
        assert forall k :: 0 <= k < |s.trace| && t.trace != s.trace ==> t.trace[k] == t.trace[..|s.trace|][k];
      }
      hide AllSee;
      if next.Retry? {
        LoopReplays(w, t, i + 1, max, canRetry, b);
      }
    }
  }

  // What buffering does to an intact request: it can be sent again, or it is too long.
  lemma Buffering(q: Req)
    requires Intact(q)
    ensures var (r, ok) := MakeReplayable(q);
            && r.body == q.body
            && (ok <==> q.rewind.Copy? || |q.body.content| <= 1048576)
            && r.rewind == if ok then Copy(q.body.content) else NoRewind
  {
    var content := q.body.content;
    if |content| > MAX_REPLAY_BODY_SIZE + 1 {
      var buf := content[..MAX_REPLAY_BODY_SIZE + 1];
      assert buf + content[|buf|..] == content;
    }
  }

  // A body over the limit is left as it was, broken or not.
  lemma Oversized(q: Req)
    requires q.body.Stream? && q.rewind.NoRewind? && |q.body.content| > 1048576
    ensures MakeReplayable(q) == (q, false)
  {
    var content := q.body.content;
    var limit := MAX_REPLAY_BODY_SIZE + 1;
    if |content| > limit {
      assert content[..limit] + content[limit..] == content;
    } else {
      assert content + content[|content|..] == content;
    }
  }

  // Where the body is buffered or brings its own copy, every backend sees all of it; a body
  // over the limit is sent, whole, to one backend only.
  lemma BufferedReplay(w: World, p: Pool, q: Req, max: nat)
    requires Intact(q) && (q.rewind.Copy? || (max > 1 && HealthyCount(p.targets) > 1))
    ensures AllSee(Handle(w, p, q, max).trace, q.body)
    ensures q.rewind.NoRewind? && |q.body.content| > 1048576 ==> |Handle(w, p, q, max).trace| <= 1
  {
    var (r, canRetry) := Prepared(p, q, max);
    Buffering(q);
    LoopReplays(w, Progress(p, r, {}, [], [], false), 0, max, canRetry, q.body);
  }

  // Bodies that cannot: the attempts share one stream.

  function Reads(trace: seq<Attempt>): nat {
    if trace == [] then 0 else Reads(trace[..|trace| - 1]) + trace[|trace| - 1].reply.read
  }

  ghost predicate ShareStream(trace: seq<Attempt>, b: Body) {
    forall k :: 0 <= k < |trace| ==> trace[k].seen == Unread(b, Reads(trace[..k]))
  }

  lemma UnreadTwice(b: Body, m: nat, n: nat)
    ensures Unread(Unread(b, m), n) == Unread(b, m + n)
  {
    if b.Stream? && m + n <= |b.content| {
      assert b.content[m..][n..] == b.content[m + n..];
    }
  }

  lemma ShareMore(trace: seq<Attempt>, a: Attempt, b: Body)
    requires ShareStream(trace, b) && a.seen == Unread(b, Reads(trace))
    ensures ShareStream(trace + [a], b) && Reads(trace + [a]) == Reads(trace) + a.reply.read
  {
    var longer := trace + [a];
    assert longer[..|trace|] == trace;
    forall k | 0 <= k < |trace| ensures longer[k].seen == Unread(b, Reads(longer[..k])) {
      assert longer[..k] == trace[..k] && longer[k] == trace[k];
    }
  }

  lemma {:induction false} LoopShares(w: World, s: Progress, i: nat, max: nat, canRetry: bool, b: Body)
    requires ShareStream(s.trace, b)
    requires s.req == Req(Unread(b, Reads(s.trace)), NoRewind)
    ensures ShareStream(Loop(w, s, i, max, canRetry).trace, b)
    decreases max - i
  {
    hide Turn;
    hide ShareStream;
    hide Reads;
    hide Unread;
    if i >= max {
    } else {
      var (t, next) := Turn(w, s, i, canRetry);
      TurnSends(w, s, i, canRetry);
      if t.trace != s.trace {
        var a := t.trace[|s.trace|];
        assert t.trace == s.trace + [a];
        ShareMore(s.trace, a, b);
        UnreadTwice(b, Reads(s.trace), a.reply.read);
      }
      if next.Retry? {
        LoopShares(w, t, i + 1, max, canRetry, b);
      }
    }
  }

  ghost predicate ReadNothing(trace: seq<Attempt>, n: int) {
    forall k :: 0 <= k < n && k < |trace| ==> trace[k].reply.read == 0
  }

  lemma {:induction false} ReadsNothing(trace: seq<Attempt>)
    ensures Reads(trace) == 0 <==> ReadNothing(trace, |trace|)
  {
    if trace == [] {
    } else {
      var n := |trace| - 1;
      ReadsNothing(trace[..n]);
      assert forall k :: 0 <= k < n ==> trace[k] == trace[..n][k];
    }
  }

  lemma SharedIsLossless(trace: seq<Attempt>, b: Body)
    requires ShareStream(trace, b) && b.Stream? && b.content != ""
    ensures AllSee(trace, b) <==> ReadNothing(trace, |trace| - 1)
  {
    assert b.content[0..] == b.content;
    if ReadNothing(trace, |trace| - 1) {
      forall k | 0 <= k < |trace| ensures trace[k].seen == b {
        ReadsNothing(trace[..k]);
      }
    } else {
      var k :| 0 <= k < |trace| - 1 && trace[k].reply.read != 0;
      FirstRead(trace, b, k);
    }
  }

  // The attempt after one that read something sees less.
  lemma FirstRead(trace: seq<Attempt>, b: Body, k: nat)
    requires ShareStream(trace, b) && b.Stream? && b.content != ""
    requires k + 1 < |trace| && trace[k].reply.read != 0
    ensures trace[k + 1].seen != b
  {
    assert trace[..k + 1][..k] == trace[..k];
    var n := Reads(trace[..k + 1]);
    assert n > 0;
    assert |Unread(b, n).content| < |b.content|;
  }

  lemma StreamShared(w: World, p: Pool, q: Req, max: nat)
    requires q.rewind.NoRewind? && !(max > 1 && HealthyCount(p.targets) > 1)
    ensures ShareStream(Handle(w, p, q, max).trace, q.body)
  {
    assert Unread(q.body, 0) == q.body by {
      if q.body.Stream? {
        assert q.body.content[0..] == q.body.content;
      }
    }
    LoopShares(w, Progress(p, q, {}, [], [], false), 0, max, true, q.body);
  }

  // In one run: replay is lossless exactly when the body was buffered, which takes two healthy
  // backends when the request comes in, or brings its own copy, or no failed attempt read any
  // of it.
  lemma LosslessRunExactlyWhen(w: World, p: Pool, q: Req, max: nat)
    requires Intact(q) && q.body.content != ""
    ensures var trace := Handle(w, p, q, max).trace;
            AllSee(trace, q.body) <==>
              || q.rewind.Copy?
              || (max > 1 && HealthyCount(p.targets) > 1)
              || ReadNothing(trace, |trace| - 1)
  {
    if q.rewind.Copy? || (max > 1 && HealthyCount(p.targets) > 1) {
      BufferedReplay(w, p, q, max);
    } else {
      StreamShared(w, p, q, max);
      hide Handle;
      SharedIsLossless(Handle(w, p, q, max).trace, q.body);
    }
  }

  // Without newcomers one healthy backend means one attempt.

  predicate NoNewcomer(o: Other) {
    o.Call? ==> !o.op.Add? && !o.op.MarkHealthy?
  }

  // No other caller brings a target into rotation while the request is served.
  ghost predicate NoNewcomers(w: World) {
    forall i, m, k :: 0 <= k < |w.others(i, m)| ==> NoNewcomer(w.others(i, m)[k])
  }

  ghost predicate HealthyWithin(ts: seq<Target>, home: set<string>) {
    forall i :: 0 <= i < |ts| && ts[i].healthy ==> ts[i].address in home
  }

  lemma StepHealthyWithin(ts: seq<Target>, op: Op, home: set<string>)
    requires HealthyWithin(ts, home) && !op.Add? && !op.MarkHealthy?
    ensures HealthyWithin(Step(ts, op), home)
  {
    hide HealthyCount;
  }

  lemma {:induction false} DisturbHealthyWithin(p: Pool, others: seq<Other>, home: set<string>)
    requires HealthyWithin(p.targets, home)
    requires forall k :: 0 <= k < |others| ==> NoNewcomer(others[k])
    ensures HealthyWithin(Disturb(p, others).targets, home)
    decreases |others|
  {
    if others == [] {
    } else {
      if others[0].Call? {
        StepHealthyWithin(p.targets, others[0].op, home);
      }
      DisturbHealthyWithin(Disturbed(p, others[0]), others[1..], home);
    }
  }

  lemma ProxiedHealthyWithin(w: World, s: Progress, i: nat, a: string, b: Body, home: set<string>)
    requires NoNewcomers(w) && HealthyWithin(s.pool.targets, home)
    ensures HealthyWithin(Proxied(w, s, i, a, b).pool.targets, home)
  {
    hide Step;
    hide HealthyWithin;
    hide Disturb;
    var p0 := Disturb(s.pool, w.others(i, BeforeRecord));
    DisturbHealthyWithin(s.pool, w.others(i, BeforeRecord), home);
    StepHealthyWithin(p0.targets, RecordRequest(a), home);
    var p1 := Apply(p0, RecordRequest(a));
    DisturbHealthyWithin(p1, w.others(i, WhileServing), home);
    var p2 := Disturb(p1, w.others(i, WhileServing));
    StepHealthyWithin(p2.targets, CompleteRequest(a), home);
    var p3 := Apply(p2, CompleteRequest(a));
    DisturbHealthyWithin(p3, w.others(i, BeforeVerdict), home);
    var verdict := if w.serve(i, a, b).ok then RecordSuccess(a) else RecordFailure(a);
    StepHealthyWithin(Disturb(p3, w.others(i, BeforeVerdict)).targets, verdict, home);
  }

  // A turn attempts only backends in rotation, and then nobody new is in rotation.
  lemma TurnHealthyWithin(w: World, s: Progress, i: nat, canRetry: bool, home: set<string>)
    requires NoNewcomers(w) && HealthyWithin(s.pool.targets, home)
    ensures var (t, next) := Turn(w, s, i, canRetry);
            if t.trace == s.trace then next.GiveUp?
            else
              && HealthyWithin(t.pool.targets, home)
              && |t.trace| == |s.trace| + 1
              && exists a :: a in home && a !in s.tried && t.tried == s.tried + {a}
  {
    hide Disturb;
    hide BodyFor;
    var p := Disturb(s.pool, w.others(i, BeforeSelect));
    DisturbHealthyWithin(s.pool, w.others(i, BeforeSelect), home);
    var selected := Selected(p, w.ip, w.draw(i));
    if selected.Some? {
      RotationWithin(p.targets, Choice(p, w.ip, w.draw(i)));
    }
    hide Selected;
    var b := BodyFor(s.req, i);
    if selected.Some? && selected.value !in s.tried && b.Some? {
      var s1 := s.(pool := Drawn(p, w.ip), tried := s.tried + {selected.value});
      ProxiedHealthyWithin(w, s1, i, selected.value, b.value, home);
    }
  }

  ghost predicate AtMostOneOf(home: set<string>) {
    forall a, b :: a in home && b in home ==> a == b
  }

  lemma TurnOnce(w: World, s: Progress, i: nat, canRetry: bool, home: set<string>)
    requires NoNewcomers(w) && HealthyWithin(s.pool.targets, home) && AtMostOneOf(home)
    ensures var (t, next) := Turn(w, s, i, canRetry);
            if t.trace == s.trace then next.GiveUp?
            else
              && HealthyWithin(t.pool.targets, home)
              && |t.trace| == |s.trace| + 1
              && !(home <= s.tried) && home <= t.tried
  {
    hide Turn;
    hide HealthyWithin;
    hide NoNewcomers;
    TurnHealthyWithin(w, s, i, canRetry, home);
  }

  lemma {:induction false} LoopOnce(w: World, s: Progress, i: nat, max: nat, canRetry: bool, home: set<string>)
    requires NoNewcomers(w) && HealthyWithin(s.pool.targets, home) && AtMostOneOf(home)
    ensures |Loop(w, s, i, max, canRetry).trace| <= |s.trace| + (if home <= s.tried then 0 else 1)
    decreases max - i
  {
    hide Turn;
    hide HealthyWithin;
    hide NoNewcomers;
    hide AtMostOneOf;
    if i >= max {
    } else {
      var (t, next) := Turn(w, s, i, canRetry);
      TurnOnce(w, s, i, canRetry, home);
      if next.Retry? {
        LoopOnce(w, t, i + 1, max, canRetry, home);
      }
    }
  }

  lemma OneHealthyOneAttempt(w: World, p: Pool, q: Req, max: nat)
    requires HealthyCount(p.targets) <= 1 && NoNewcomers(w)
    ensures |Handle(w, p, q, max).trace| <= 1
  {
    var home := set t <- p.targets | t.healthy :: t.address;
    forall a, b | a in home && b in home ensures a == b {
      var i :| 0 <= i < |p.targets| && p.targets[i].healthy && p.targets[i].address == a;
      var j :| 0 <= j < |p.targets| && p.targets[j].healthy && p.targets[j].address == b;
      if i < j {
        HealthyPair(p.targets, i, j);
      } else if j < i {
        HealthyPair(p.targets, j, i);
      }
    }
    LoopOnce(w, Progress(p, q, {}, [], [], false), 0, max, true, home);
  }

  // Every attempted backend sees the original body, if no target enters rotation meanwhile.
  lemma Lossless(w: World, p: Pool, q: Req, max: nat)
    requires Intact(q) && NoNewcomers(w)
    ensures AllSee(Handle(w, p, q, max).trace, q.body)
  {
    if q.rewind.Copy? || (max > 1 && HealthyCount(p.targets) > 1) {
      BufferedReplay(w, p, q, max);
    } else {
      StreamShared(w, p, q, max);
      if max <= 1 {
        OneRequest(w, p, q, max);
      } else {
        OneHealthyOneAttempt(w, p, q, max);
      }
      hide Handle;
      assert q.body.content[0..] == q.body.content;
    }
  }

  // A body whose read fails within the limit goes to one backend at most, which sees none
  // of what was read.
  lemma BrokenBody(w: World, p: Pool, q: Req, max: nat)
    requires q.body.Stream? && q.body.broken && q.rewind.NoRewind? && |q.body.content| <= MAX_REPLAY_BODY_SIZE
    requires max > 1 && HealthyCount(p.targets) > 1
    ensures var trace := Handle(w, p, q, max).trace;
            |trace| <= 1 && AllSee(trace, Stream("", true))
  {
    var r := q.(body := Stream("", true));
    assert Prepared(p, q, max) == (r, false);
    var s := Progress(p, r, {}, [], [], false);
    TurnSends(w, s, 0, false);
    hide Turn;
    hide MakeReplayable;
    hide Prepared;
  }

  // A body that cannot be had again is sent once, and a request without one is retried freely.

  lemma NotSentAgain(w: World, s: Progress, i: nat, max: nat, canRetry: bool)
    requires i > 0 && s.req.rewind.Fails?
    ensures Loop(w, s, i, max, canRetry).trace == s.trace
  {
    TurnSends(w, s, i, canRetry);
    hide Turn;
  }

  lemma RewindFailsOnce(w: World, p: Pool, q: Req, max: nat)
    requires q.rewind.Fails?
    ensures |Handle(w, p, q, max).trace| <= 1
  {
    var s := Progress(p, q, {}, [], [], false);
    assert Prepared(p, q, max) == (q, true);
    hide Prepared;
    hide Turn;
    hide BodyFor;
    if max > 0 {
      TurnSends(w, s, 0, true);
      NotSentAgain(w, Turn(w, s, 0, true).0, 1, max, true);
    }
  }

  lemma Bodiless(w: World, p: Pool, q: Req, max: nat)
    requires q == Req(NoBody, NoRewind)
    ensures AllSee(Handle(w, p, q, max).trace, NoBody)
  {
    assert Prepared(p, q, max) == (q, true);
    LoopShares(w, Progress(p, q, {}, [], [], false), 0, max, true, NoBody);
    hide Handle;
  }

  // Over all runs the table allows. It drops a pool that has drained and never brings it
  // back, so nobody adds to an empty pool.

  ghost predicate Tended(p: Pool, others: seq<Other>)
    decreases |others|
  {
    others == [] ||
    (&& (others[0].Call? && others[0].op.Add? ==> p.targets != [])
     && Tended(Disturbed(p, others[0]), others[1..]))
  }

  ghost predicate AttemptTended(w: World, p: Pool, i: nat, a: string) {
    var begun := Apply(Disturb(p, w.others(i, BeforeRecord)), RecordRequest(a));
    var served := Apply(Disturb(begun, w.others(i, WhileServing)), CompleteRequest(a));
    && Tended(p, w.others(i, BeforeRecord))
    && Tended(begun, w.others(i, WhileServing))
    && Tended(served, w.others(i, BeforeVerdict))
  }

  ghost predicate TurnTended(w: World, s: Progress, i: nat) {
    var p := Disturb(s.pool, w.others(i, BeforeSelect));
    var selected := Selected(p, w.ip, w.draw(i));
    && Tended(s.pool, w.others(i, BeforeSelect))
    && (selected.Some? && selected.value !in s.tried && BodyFor(s.req, i).Some? ==>
          AttemptTended(w, Drawn(p, w.ip), i, selected.value))
  }

  ghost predicate LoopTended(w: World, s: Progress, i: nat, max: nat, canRetry: bool)
    decreases max - i
  {
    i < max ==>
      var (t, next) := Turn(w, s, i, canRetry);
      TurnTended(w, s, i) && (next.Retry? ==> LoopTended(w, t, i + 1, max, canRetry))
  }

  ghost predicate HandleTended(w: World, p: Pool, q: Req, max: nat) {
    var (r, canRetry) := Prepared(p, q, max);
    LoopTended(w, Progress(p, r, {}, [], [], false), 0, max, canRetry)
  }

  // A pool that is empty to begin with stays so, and nothing is attempted.

  lemma {:induction false} StaysEmpty(p: Pool, others: seq<Other>)
    requires p.targets == [] && Tended(p, others)
    ensures Disturb(p, others).targets == []
    decreases |others|
  {
    if others == [] {
    } else {
      StaysEmpty(Disturbed(p, others[0]), others[1..]);
    }
  }

  lemma EmptyNoAttempt(w: World, p: Pool, q: Req, max: nat)
    requires p.targets == [] && HandleTended(w, p, q, max)
    ensures Handle(w, p, q, max).trace == []
  {
    if max > 0 {
      StaysEmpty(p, w.others(0, BeforeSelect));
    }
    hide Disturb;
    hide Tended;
  }

  // Without a buffer, a second attempt that follows a change of containers is sent what the
  // first left of the body, whatever the pool was.

  function Emptying(ts: seq<Target>): seq<Other> {
    if ts == [] then [] else [Call(Op.Remove(ts[0].containerID))] + Emptying(ts[1..])
  }

  // When all that were before are removed, the one added last is left.
  lemma {:induction false} LastLeft(p: Pool, ts: seq<Target>, n: Target)
    requires p.targets == ts + [n]
    ensures Disturb(p, Emptying(ts)) == p.(targets := [n]) && Tended(p, Emptying(ts))
    decreases |ts|
  {
    if ts == [] {
    } else {
      var o := Call(Op.Remove(ts[0].containerID));
      var q := p.(targets := ts[1..] + [n]);
      assert Disturbed(p, o) == q by {
        assert p.targets[0].containerID == ts[0].containerID;
      }
      assert Emptying(ts)[1..] == Emptying(ts[1..]);
      LastLeft(q, ts[1..], n);
    }
  }

  // No target has this address.
  function Newcomer(ts: seq<Target>): (x: string)
    ensures forall i :: 0 <= i < |ts| ==> |ts[i].address| < |x|
  {
    if ts == [] then "x" else ts[0].address + Newcomer(ts[1..])
  }

  function Sole(x: string): Target {
    Target(x, x, 1, true, 0, 0, 0, 0)
  }

  // A new container joins the pool, and the old ones leave it.
  function Replacing(ts: seq<Target>, x: string): seq<Other> {
    [SetStrategy(RoundRobin), Call(Op.Add(Sole(x)))] + Emptying(ts)
  }

  lemma Replace(p: Pool, x: string)
    requires p.targets != [] && forall i :: 0 <= i < |p.targets| ==> p.targets[i].address != x
    ensures Disturb(p, Replacing(p.targets, x)) == Pool([Sole(x)], RoundRobin, p.ticket)
    ensures Tended(p, Replacing(p.targets, x))
  {
    var ts := p.targets;
    var p1 := p.(strategy := RoundRobin);
    var p2 := p1.(targets := ts + [Sole(x)]);
    assert Disturbed(p1, Call(Op.Add(Sole(x)))) == p2;
    LastLeft(p2, ts, Sole(x));
    var later := [Call(Op.Add(Sole(x)))] + Emptying(ts);
    assert later[1..] == Emptying(ts);
    assert Replacing(ts, x)[1..] == later;
    hide Emptying;
  }

  // Before the first attempt the pool is replaced by x, before the second by another; every
  // reply reads the whole body and fails.
  function Replaced(ts: seq<Target>, x: string, length: nat): World {
    World("", i => 0,
      (i, m) =>
        if m != BeforeSelect then []
        else if i == 0 then Replacing(ts, x)
        else if i == 1 then Replacing([Sole(x)], x + "x")
        else [],
      (i, a, b) => Reply([], false, length))
  }

  ghost predicate IsSole(p: Pool, x: string) {
    |p.targets| == 1 && p.targets[0].containerID == p.targets[0].address == x
  }

  // An attempt at a sole target leaves it alone in the pool.
  lemma SoleAfter(w: World, p: Pool, i: nat, x: string, ok: bool)
    requires IsSole(p, x)
    requires forall m :: m != BeforeSelect ==> w.others(i, m) == []
    ensures IsSole(PoolAfter(w, p, i, x, ok), x)
  {
    hide HealthyCount;
  }

  lemma SoleSelected(ticket: nat, x: string, ip: string, draw: nat)
    ensures Selected(Pool([Sole(x)], RoundRobin, ticket), ip, draw) == Some(x)
  {
    var ts := [Sole(x)];
    assert ts[..0] == [];
    assert Rotation(ts) == [] + ts;
    assert |Rotation(ts)| == 1;
    hide Rotation;
  }

  lemma SoleTurn(w: World, s: Progress, i: nat, x: string, ticket: nat)
    requires Disturb(s.pool, w.others(i, BeforeSelect)) == Pool([Sole(x)], RoundRobin, ticket) && x !in s.tried
    requires Tended(s.pool, w.others(i, BeforeSelect))
    requires s.req.rewind.NoRewind? && !s.committed
    requires forall m :: m != BeforeSelect ==> w.others(i, m) == []
    requires w.serve(i, x, s.req.body).actions == [] && !w.serve(i, x, s.req.body).ok
    ensures TurnTended(w, s, i)
    ensures var (t, next) := Turn(w, s, i, true);
            && next.Retry? && !t.committed && t.tried == s.tried + {x}
            && t.trace == s.trace + [Attempt(x, s.req.body, w.serve(i, x, s.req.body))]
            && t.req == s.req.(body := Unread(s.req.body, w.serve(i, x, s.req.body).read))
            && IsSole(t.pool, x)
  {
    var p := Pool([Sole(x)], RoundRobin, ticket);
    SoleSelected(ticket, x, w.ip, w.draw(i));
    var q := Drawn(p, w.ip);
    assert q.targets == p.targets;
    SoleAfter(w, q, i, x, false);
    hide Disturb;
    hide Selected;
    hide Drawn;
    hide PoolAfter;
    hide Unread;
    var s1 := s.(pool := q, tried := s.tried + {x});
    var t := Proxied(w, s1, i, x, s.req.body);
  }

  lemma FirstReplaced(p: Pool, q: Req, x: string)
    requires Intact(q) && q.rewind.NoRewind? && p.targets != []
    requires forall i :: 0 <= i < |p.targets| ==> p.targets[i].address != x
    ensures var w := Replaced(p.targets, x, |q.body.content|);
            var s := Progress(p, q, {}, [], [], false);
            var (t, next) := Turn(w, s, 0, true);
            && TurnTended(w, s, 0)
            && next.Retry? && !t.committed && t.tried == {x} && |t.trace| == 1
            && t.req == Req(Stream("", false), NoRewind) && IsSole(t.pool, x)
  {
    Replace(p, x);
    hide Disturb;
    hide Turn;
    hide Replacing;
    hide Tended;
    hide TurnTended;
    SoleTurn(Replaced(p.targets, x, |q.body.content|), Progress(p, q, {}, [], [], false), 0, x, p.ticket);
  }

  lemma SecondReplaced(ts: seq<Target>, x: string, length: nat, t: Progress)
    requires !t.committed && t.tried == {x} && |t.trace| == 1 && t.req == Req(Stream("", false), NoRewind)
    requires IsSole(t.pool, x)
    ensures var w := Replaced(ts, x, length);
            var u := Turn(w, t, 1, true).0;
            TurnTended(w, t, 1) && |u.trace| == 2 && u.trace[1].seen == Stream("", false)
  {
    var y := x + "x";
    Replace(t.pool, y);
    assert Emptying(t.pool.targets)[1..] == Emptying([]) == Emptying([Sole(x)])[1..];
    assert Replacing([Sole(x)], y) == Replacing(t.pool.targets, y);
    hide Disturb;
    hide Turn;
    hide Replacing;
    hide Tended;
    hide TurnTended;
    SoleTurn(Replaced(ts, x, length), t, 1, y, t.pool.ticket);
  }

  lemma TwoTurns(w: World, s: Progress, max: nat)
    requires max > 1 && Turn(w, s, 0, true).1 == Retry
    ensures Turn(w, Turn(w, s, 0, true).0, 1, true).0.trace <= Loop(w, s, 0, max, true).trace
  {
    hide Turn;
    var t := Turn(w, s, 0, true).0;
    var (u, next) := Turn(w, t, 1, true);
    if next.Retry? {
      LoopExtends(w, u, 2, max, true);
    }
  }

  // Where nobody else comes by, the pool is tended.
  lemma {:induction false} QuietTended(w: World, s: Progress, i: nat, max: nat, canRetry: bool)
    requires forall j, m :: j >= i ==> w.others(j, m) == []
    ensures LoopTended(w, s, i, max, canRetry)
    decreases max - i
  {
    hide Turn;
    hide Selected;
    hide Disturb;
    if i < max {
      QuietTended(w, Turn(w, s, i, canRetry).0, i + 1, max, canRetry);
    }
  }

  lemma TwoTurnsTended(w: World, s: Progress, max: nat)
    requires max > 1 && Turn(w, s, 0, true).1 == Retry
    requires TurnTended(w, s, 0) && TurnTended(w, Turn(w, s, 0, true).0, 1)
    requires forall j, m :: j >= 2 ==> w.others(j, m) == []
    ensures LoopTended(w, s, 0, max, true)
  {
    hide Turn;
    hide TurnTended;
    var t := Turn(w, s, 0, true).0;
    QuietTended(w, Turn(w, t, 1, true).0, 2, max, true);
    assert LoopTended(w, t, 1, max, true);
  }

  lemma ReplacedSeesRest(p: Pool, q: Req, max: nat)
    requires Intact(q) && q.body.content != "" && q.rewind.NoRewind? && max > 1 && HealthyCount(p.targets) <= 1
    requires p.targets != []
    ensures var w := Replaced(p.targets, Newcomer(p.targets), |q.body.content|);
            HandleTended(w, p, q, max) && !AllSee(Handle(w, p, q, max).trace, q.body)
  {
    hide Turn;
    hide TurnTended;
    hide Loop;
    hide LoopTended;
    hide HealthyCount;
    var n, x := |q.body.content|, Newcomer(p.targets);
    hide Newcomer;
    var w := Replaced(p.targets, x, n);
    var s := Progress(p, q, {}, [], [], false);
    FirstReplaced(p, q, x);
    var t := Turn(w, s, 0, true).0;
    SecondReplaced(p.targets, x, n, t);
    TwoTurns(w, s, max);
    TwoTurnsTended(w, s, max);
    hide Replaced;
    var r := Handle(w, p, q, max);
    assert r.trace[1] == Turn(w, t, 1, true).0.trace[1];
  }

  // Every backend sees the whole body, whatever backends and others do, exactly when it is
  // known beforehand that it can be sent again, or that there is one attempt only, or none.
  lemma LosslessExactlyWhen(p: Pool, q: Req, max: nat)
    requires Intact(q) && q.body.content != ""
    ensures (forall w: World | HandleTended(w, p, q, max) :: AllSee(Handle(w, p, q, max).trace, q.body)) <==>
              q.rewind.Copy? || max <= 1 || HealthyCount(p.targets) > 1 || p.targets == []
  {
    hide Handle;
    hide HandleTended;
    if q.rewind.Copy? || max <= 1 || HealthyCount(p.targets) > 1 || p.targets == [] {
      forall w: World | HandleTended(w, p, q, max) ensures AllSee(Handle(w, p, q, max).trace, q.body) {
        OneRequest(w, p, q, max);
        LosslessRunExactlyWhen(w, p, q, max);
        if p.targets == [] {
          EmptyNoAttempt(w, p, q, max);
        }
      }
    } else {
      ReplacedSeesRest(p, q, max);
    }
  }

  // Two backends, the second of which the health checker restores while the first is failing:
  // the request was not buffered, and the second attempt sees what the first left of it.

  function OneOfTwo(): Pool {
    Pool([Target("a", "", 1, true, 0, 0, 0, 0), Target("b", "", 1, false, 0, 0, 0, 0)], RoundRobin, 0)
  }

  function RestoredMeanwhile(): World {
    World("", i => 0,
      (i, m) => if i == 0 && m == WhileServing then [Call(Op.MarkHealthy("b"))] else [],
      (i, a, b) => Reply([], false, 4))
  }

  lemma RotationOfTwo(x: Target, y: Target)
    ensures Rotation([x, y]) == (if x.healthy then [x] else []) + (if y.healthy then [y] else [])
    ensures HealthyCount([x, y]) == (if x.healthy then 1 else 0) + (if y.healthy then 1 else 0)
  {
    assert [x, y] == [x] + [y];
    RotationSplit([x], [y]);
    assert [x][..0] == [] && [y][..0] == [];
    HealthySplit([x], [y]);
    assert [x][1..] == [] && [y][1..] == [];
  }

  lemma FailureSeen(x: Target, y: Target, strategy: Strategy, ticket: nat)
    requires x.address != y.address && x.consecFail == 0
    ensures Apply(Pool([x, y], strategy, ticket), Op.RecordFailure(x.address))
         == Pool([x.(failures := x.failures + 1, consecFail := 1), y], strategy, ticket)
  {
  }

  const POSTED := Req(Stream("body", false), NoRewind)
  const START := Progress(OneOfTwo(), POSTED, {}, [], [], false)
  const AFTER_FIRST := Pool([Target("a", "", 1, true, 1, 1, 0, 1), Target("b", "", 1, true, 0, 0, 0, 0)], RoundRobin, 1)

  lemma FirstSelected()
    ensures HealthyCount(OneOfTwo().targets) == 1
    ensures Drawn(OneOfTwo(), "") == OneOfTwo().(ticket := 1) && Selected(OneOfTwo(), "", 0) == Some("a")
  {
    RotationOfTwo(OneOfTwo().targets[0], OneOfTwo().targets[1]);
    hide Rotation;
  }

  lemma SecondSelected()
    ensures Selected(AFTER_FIRST, "", 0) == Some("b")
  {
    RotationOfTwo(AFTER_FIRST.targets[0], AFTER_FIRST.targets[1]);
    hide Rotation;
  }

  lemma FirstPool()
    ensures Proxied(RestoredMeanwhile(), START.(pool := OneOfTwo().(ticket := 1)), 0, "a", POSTED.body).pool == AFTER_FIRST
  {
    hide HealthyCount;
    var a, b := OneOfTwo().targets[0], OneOfTwo().targets[1];
    var a1 := a.(requests := 1, activeConns := 1);
    assert Apply(Pool([a, b], RoundRobin, 1), Op.RecordRequest("a")) == Pool([a1, b], RoundRobin, 1);
    var b1 := b.(healthy := true);
    assert Apply(Pool([a1, b], RoundRobin, 1), Op.MarkHealthy("b")) == Pool([a1, b1], RoundRobin, 1);
    assert Disturb(Pool([a1, b], RoundRobin, 1), [Call(Op.MarkHealthy("b"))]) == Pool([a1, b1], RoundRobin, 1);
    var a2 := a1.(activeConns := 0);
    assert Apply(Pool([a1, b1], RoundRobin, 1), Op.CompleteRequest("a")) == Pool([a2, b1], RoundRobin, 1);
    FailureSeen(a2, b1, RoundRobin, 1);
    hide Apply;
  }

  lemma FirstTurn() returns (t: Progress)
    ensures Turn(RestoredMeanwhile(), START, 0, true) == (t, Retry)
    ensures t.req == Req(Stream("", false), NoRewind) && t.tried == {"a"} && |t.trace| == 1 && t.pool == AFTER_FIRST
  {
    FirstSelected();
    hide Drawn;
    hide Selected;
    var w := RestoredMeanwhile();
    var s := START.(pool := OneOfTwo().(ticket := 1), tried := {"a"});
    FirstPool();
    assert Proxied(w, s, 0, "a", POSTED.body).pool == Proxied(w, START.(pool := OneOfTwo().(ticket := 1)), 0, "a", POSTED.body).pool;
    hide Apply;
    t := Turn(w, START, 0, true).0;
    assert t == Proxied(w, s, 0, "a", POSTED.body);
  }

  // A turn that is given an untried backend and a body makes an attempt.
  lemma TurnAttempts(w: World, s: Progress, i: nat, canRetry: bool, p: Pool, a: string)
    requires p == Disturb(s.pool, w.others(i, BeforeSelect))
    requires Selected(p, w.ip, w.draw(i)) == Some(a) && a !in s.tried
    requires i == 0 || s.req.rewind.NoRewind?
    ensures Turn(w, s, i, canRetry).0.trace == s.trace + [Attempt(a, s.req.body, w.serve(i, a, s.req.body))]
  {
    hide Disturb;
    hide Selected;
    hide Drawn;
    hide Apply;
    hide SentBy;
    hide Committing;
  }

  lemma LastTurn(w: World, s: Progress, i: nat, canRetry: bool)
    ensures Loop(w, s, i, i + 1, canRetry).trace == Turn(w, s, i, canRetry).0.trace
  {
    hide Turn;
  }

  lemma NewcomerSeesRest()
    ensures Intact(POSTED) && HealthyCount(OneOfTwo().targets) == 1
    ensures var trace := Handle(RestoredMeanwhile(), OneOfTwo(), POSTED, 2).trace;
            |trace| == 2 && trace[1].seen == Stream("", false)
  {
    var w := RestoredMeanwhile();
    FirstSelected();
    var t := FirstTurn();
    SecondSelected();
    TurnAttempts(w, t, 1, true, t.pool, "b");
    LastTurn(w, t, 1, true);
    hide Turn;
    hide Selected;
    hide HealthyCount;
    assert Loop(w, START, 0, 2, true) == Loop(w, t, 1, 2, true);
    hide Loop;
  }
}
