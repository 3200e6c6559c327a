// internal/router/router.go, internal/router/failover.go: one request's way through the
// retry loop, as a function of what backends answer and what others do to the pool meanwhile.
module Failover {
  import opened Options
  import opened Selection
  import opened Targets

  const MAX_REPLAY_BODY_SIZE := 0x10_0000

  datatype Pool = Pool(targets: seq<Target>, strategy: Strategy, ticket: nat)

  // What anybody else may do to the pool between two critical sections of this request.
  datatype Other = Call(op: Op) | Draw(ip: string) | SetStrategy(strategy: Strategy)

  // The points at which this request holds no lock.
  datatype Moment = BeforeSelect | BeforeRecord | WhileServing | BeforeVerdict

  datatype Body = NoBody | Stream(content: string, broken: bool)
  // GetBody: nil, a function returning a fresh copy, or one that fails.
  datatype Rewind = NoRewind | Copy(content: string) | Fails
  datatype Req = Req(body: Body, rewind: Rewind)

  datatype Action = WriteHeader(code: int) | Write(bytes: string) | Flush | Hijack(ok: bool)
  // What the proxy does with one attempt, and how much of the body it reads.
  datatype Reply = Reply(actions: seq<Action>, ok: bool, read: nat)
  datatype Source = FromBackend(attempt: nat) | ErrorPage
  datatype Sent = Sent(source: Source, action: Action)
  datatype Attempt = Attempt(address: string, seen: Body, reply: Reply)

  // Everything the loop does not decide: the client, the random source, other requests,
  // and the backends.
  datatype World = World(
    ip: string,
    draw: nat -> nat,
    others: (nat, Moment) -> seq<Other>,
    serve: (nat, string, Body) -> Reply)

  // The loop's variables, and what it has done so far.
  datatype Progress = Progress(
    pool: Pool,
    req: Req,
    tried: set<string>,
    trace: seq<Attempt>,
    log: seq<Sent>,
    committed: bool)

  datatype Next = Retry | Answered | GiveUp

  // The pool.

  function Apply(p: Pool, op: Op): Pool {
    p.(targets := Step(p.targets, op))
  }

  function Drawn(p: Pool, ip: string): Pool {
    if Rotation(p.targets) != [] && TakesTicket(p.strategy, ip) then p.(ticket := (p.ticket + 1) % TWO_TO_64) else p
  }

  function Disturbed(p: Pool, o: Other): Pool {
    match o
    case Call(op) => Apply(p, op)
    case Draw(ip) => Drawn(p, ip)
    case SetStrategy(s) => p.(strategy := s)
  }

  function Disturb(p: Pool, others: seq<Other>): Pool
    decreases |others|
  {
    if others == [] then p else Disturb(Disturbed(p, others[0]), others[1..])
  }

  // Position of the first target with the fewest connections.
  ghost function LeastBusy(hs: seq<Target>): (c: int)
    ensures -1 <= c && IsLeastConn(hs, c)
  {
    if hs == [] then -1
    else
      var n := |hs| - 1;
      var c := LeastBusy(hs[..n]);
      if hs[n].activeConns < (if c < 0 then MAX_INT_64 else hs[c].activeConns) then n else c
  }

  ghost function Choice(p: Pool, ip: string, draw: nat): (c: int)
    requires Rotation(p.targets) != []
    ensures -1 <= c < |Rotation(p.targets)|
  {
    var hs := Rotation(p.targets);
    match p.strategy
    case RoundRobin => p.ticket % |hs|
    case Random => draw % |hs|
    case IPHash => (if ip == "" then p.ticket else AddressHash(ip)) % |hs|
    case LeastConn => LeastBusy(hs)
    case WeightedRoundRobin => Share(hs, p.ticket % TotalWeight(hs))
  }

  // The choice is determined.
  lemma ChoiceUnique(p: Pool, ip: string, draw: nat, c: int)
    requires Rotation(p.targets) != []
    requires Chooses(p.strategy, Rotation(p.targets), p.ticket, ip, draw, c)
    ensures if c < 0 then Choice(p, ip, draw) < 0 else c == Choice(p, ip, draw)
  {
    if p.strategy.LeastConn? {
      var hs := Rotation(p.targets);
      var d := LeastBusy(hs);
      assert IsLeastConn(hs, d) && IsLeastConn(hs, c);
    }
  }

  // The address Select hands out.
  ghost function Selected(p: Pool, ip: string, draw: nat): Option<string> {
    var hs := Rotation(p.targets);
    if hs == [] || Choice(p, ip, draw) < 0 then None else Some(hs[Choice(p, ip, draw)].address)
  }

  // The request body.

  function Unread(b: Body, n: nat): Body {
    match b
    case NoBody => NoBody
    case Stream(c, broken) => Stream(if n <= |c| then c[n..] else "", broken)
  }

  // makeReplayable: buffer up to the limit, and say whether the request can be sent again.
  function MakeReplayable(q: Req): (Req, bool) {
    match q
    case Req(Stream(content, broken), NoRewind) =>
      var limit := MAX_REPLAY_BODY_SIZE + 1;
      var buf := if |content| <= limit then content else content[..limit];
      if |content| < limit && broken then (q.(body := Stream("", broken)), false)
      else if |buf| > MAX_REPLAY_BODY_SIZE then (q.(body := Stream(buf + content[|buf|..], broken)), false)
      else (Req(Stream(buf, false), Copy(buf)), true)
    case _ => (q, true)
  }

  // What attempt i is sent; None if the body cannot be rewound.
  function BodyFor(q: Req, i: nat): Option<Body> {
    if i == 0 || q.rewind.NoRewind? then Some(q.body)
    else if q.rewind.Fails? then None
    else Some(Stream(q.rewind.content, false))
  }

  // Only a body that is not a fresh copy is used up.
  function UsedUp(q: Req, i: nat, n: nat): Req {
    if i == 0 || q.rewind.NoRewind? then q.(body := Unread(q.body, n)) else q
  }

  // The client.

  // Flush and a failed Hijack leave failoverWriter uncommitted.
  predicate Commits(a: Action) {
    a.WriteHeader? || a.Write? || (a.Hijack? && a.ok)
  }

  predicate Committing(actions: seq<Action>) {
    exists i :: 0 <= i < |actions| && Commits(actions[i])
  }

  function SentBy(source: Source, actions: seq<Action>): (sent: seq<Sent>)
    ensures |sent| == |actions| && forall i :: 0 <= i < |actions| ==> sent[i] == Sent(source, actions[i])
  {
    seq(|actions|, i requires 0 <= i < |actions| => Sent(source, actions[i]))
  }

  const UNAVAILABLE := "Service Unavailable: No healthy backends available"

  function Page(): seq<Sent> {
    SentBy(ErrorPage, [WriteHeader(503), Write(UNAVAILABLE)])
  }

  // The loop.

  // What an attempt does to the pool once RecordRequest is done.
  ghost function Concluded(w: World, p: Pool, i: nat, a: string, ok: bool): Pool {
    var served := Apply(Disturb(p, w.others(i, WhileServing)), CompleteRequest(a));
    Apply(Disturb(served, w.others(i, BeforeVerdict)), if ok then RecordSuccess(a) else RecordFailure(a))
  }

  ghost function PoolAfter(w: World, p: Pool, i: nat, a: string, ok: bool): Pool {
    Concluded(w, Apply(Disturb(p, w.others(i, BeforeRecord)), RecordRequest(a)), i, a, ok)
  }

  ghost function Proxied(w: World, s: Progress, i: nat, a: string, b: Body): Progress {
    var reply := w.serve(i, a, b);
    Progress(
      PoolAfter(w, s.pool, i, a, reply.ok),
      UsedUp(s.req, i, reply.read),
      s.tried,
      s.trace + [Attempt(a, b, reply)],
      s.log + SentBy(FromBackend(i), reply.actions),
      s.committed || Committing(reply.actions))
  }

  // One pass of the loop body.
  ghost function Turn(w: World, s: Progress, i: nat, canRetry: bool): (Progress, Next) {
    var p := Disturb(s.pool, w.others(i, BeforeSelect));
    var selected := Selected(p, w.ip, w.draw(i));
    var s0 := s.(pool := Drawn(p, w.ip));
    if selected.None? || selected.value in s.tried then (s0, GiveUp)
    else
      var a := selected.value;
      var s1 := s0.(tried := s.tried + {a});
      var b := BodyFor(s.req, i);
      if b.None? then (s1, GiveUp)
      else
        var s2 := Proxied(w, s1, i, a, b.value);
        (s2, if w.serve(i, a, b.value).ok || s2.committed then Answered else if canRetry then Retry else GiveUp)
  }

  // After the loop: the 503 page, unless something has reached the client.
  function Finish(s: Progress): Progress {
    if s.committed then s else s.(log := s.log + Page(), committed := true)
  }

  ghost function Loop(w: World, s: Progress, i: nat, max: nat, canRetry: bool): Progress
    decreases max - i
  {
    if i >= max then Finish(s)
    else
      var (t, next) := Turn(w, s, i, canRetry);
      match next
      case Answered => t
      case GiveUp => Finish(t)
      case Retry => Loop(w, t, i + 1, max, canRetry)
  }

  // A body is buffered only where there is something to fail over to.
  function Prepared(p: Pool, q: Req, max: nat): (Req, bool) {
    if max > 1 && HealthyCount(p.targets) > 1 then MakeReplayable(q) else (q, true)
  }

  ghost function Handle(w: World, p: Pool, q: Req, max: nat): Progress {
    var (r, canRetry) := Prepared(p, q, max);
    Loop(w, Progress(p, r, {}, [], [], false), 0, max, canRetry)
  }

  // One turn either leaves the trace alone or adds an attempt that is sent BodyFor.
  lemma TurnSends(w: World, s: Progress, i: nat, canRetry: bool)
    ensures var (t, next) := Turn(w, s, i, canRetry);
            if t.trace == s.trace then t.req == s.req && next.GiveUp?
            else
              && BodyFor(s.req, i).Some?
              && |t.trace| == |s.trace| + 1 && t.trace[..|s.trace|] == s.trace
              && t.trace[|s.trace|].seen == BodyFor(s.req, i).value
              && t.req == UsedUp(s.req, i, t.trace[|s.trace|].reply.read)
              && (next.Retry? ==> canRetry)
  {
    hide Disturb;
    hide Selected;
    hide Drawn;
    hide Apply;
    hide SentBy;
    hide Committing;
    hide BodyFor;
    hide UsedUp;
  }

  // The loop only ever adds attempts.
  lemma {:induction false} LoopExtends(w: World, s: Progress, i: nat, max: nat, canRetry: bool)
    ensures s.trace <= Loop(w, s, i, max, canRetry).trace
    decreases max - i
  {
    hide Turn;
    hide BodyFor;
    hide UsedUp;
    if i >= max {
    } else {
      var (t, next) := Turn(w, s, i, canRetry);
      TurnSends(w, s, i, canRetry);
      if next.Retry? {
        LoopExtends(w, t, i + 1, max, canRetry);
      }
    }
  }

  // One request reaches the client from one source.

  predicate FailsUncommitted(r: Reply) {
    !r.ok && !Committing(r.actions)
  }

  // An attempt that leaves the request to be tried elsewhere.
  predicate Failed(a: Attempt) {
    FailsUncommitted(a.reply)
  }

  function Received(trace: seq<Attempt>): seq<Sent> {
    if trace == [] then []
    else
      var n := |trace| - 1;
      Received(trace[..n]) + SentBy(FromBackend(n), trace[n].reply.actions)
  }

  ghost predicate DistinctAddresses(trace: seq<Attempt>) {
    forall i, j :: 0 <= i < j < |trace| ==> trace[i].address != trace[j].address
  }

  ghost predicate FailedUpTo(trace: seq<Attempt>, n: int) {
    forall i :: 0 <= i < n && i < |trace| ==> Failed(trace[i])
  }

  // Each attempt got what the backend answers to it.
  ghost predicate Answers(w: World, trace: seq<Attempt>) {
    forall i :: 0 <= i < |trace| ==> trace[i].reply == w.serve(i, trace[i].address, trace[i].seen)
  }

  // The loop head, when turn i is about to start.
  ghost predicate Live(w: World, s: Progress, i: nat) {
    && Answers(w, s.trace)
    && |s.trace| == i
    && !s.committed
    && s.log == Received(s.trace)
    && FailedUpTo(s.trace, i)
    && DistinctAddresses(s.trace)
    && s.tried == Addresses(s.trace)
  }

  function Addresses(trace: seq<Attempt>): set<string> {
    set a <- trace :: a.address
  }

  // What the loop has done when it ends.
  ghost predicate Done(w: World, r: Progress, max: nat) {
    && Answers(w, r.trace)
    && |r.trace| <= max
    && DistinctAddresses(r.trace)
    && FailedUpTo(r.trace, |r.trace| - 1)
    && r.log == Received(r.trace) + (if FailedUpTo(r.trace, |r.trace|) then Page() else [])
  }

  // The log of a trace with one more attempt.
  lemma ReceivedGrows(trace: seq<Attempt>, a: Attempt)
    ensures Received(trace + [a]) == Received(trace) + SentBy(FromBackend(|trace|), a.reply.actions)
  {
    assert (trace + [a])[..|trace|] == trace;
  }

  // What one more attempt makes of the loop's promises.
  lemma OneMore(w: World, s: Progress, t: Progress, i: nat, a: Attempt)
    requires Live(w, s, i) && a.address !in s.tried
    requires a.reply == w.serve(i, a.address, a.seen)
    requires t.trace == s.trace + [a] && t.tried == s.tried + {a.address}
    requires t.log == s.log + SentBy(FromBackend(i), a.reply.actions) && t.committed == Committing(a.reply.actions)
    ensures if Failed(a) then Live(w, t, i + 1) else Done(w, t, i + 1)
  {
    hide SentBy;
    hide Committing;
    ReceivedGrows(s.trace, a);
    hide Received;
    assert forall k :: 0 <= k < i ==> t.trace[k] == s.trace[k];
    assert Addresses(t.trace) == Addresses(s.trace) + {a.address} by {
      assert forall k :: 0 <= k < |s.trace| ==> t.trace[k] == s.trace[k];
      assert t.trace[i] == a;
    }
    assert forall k :: 0 <= k < i ==> s.trace[k] in s.trace;
    assert t.log == Received(t.trace) + [];
  }

  lemma LiveFinishes(w: World, s: Progress, i: nat)
    requires Live(w, s, i)
    ensures Done(w, Finish(s), i)
  {
    hide Received;
    hide DistinctAddresses;
    hide Failed;
  }

  lemma TurnKeeps(w: World, s: Progress, i: nat, canRetry: bool)
    requires Live(w, s, i)
    ensures var (t, next) := Turn(w, s, i, canRetry);
            match next
            case Retry => Live(w, t, i + 1)
            case GiveUp => Done(w, Finish(t), i) || Done(w, Finish(t), i + 1)
            case Answered => Done(w, t, i + 1)
  {
    hide Disturb;
    hide Selected;
    hide Drawn;
    hide Apply;
    hide SentBy;
    hide Committing;
    var (t, next) := Turn(w, s, i, canRetry);
    if t.trace == s.trace {
      LiveFinishes(w, s, i);
    } else {
      var a := t.trace[i];
      assert t.trace == s.trace + [a];
      hide Live;
      hide Done;
      assert Live(w, s, i);
      OneMore(w, s, t, i, a);
      if Failed(a) {
        LiveFinishes(w, t, i + 1);
      }
    }
  }

  lemma {:induction false} LoopDone(w: World, s: Progress, i: nat, max: nat, canRetry: bool)
    requires Live(w, s, i) && i <= max
    ensures Done(w, Loop(w, s, i, max, canRetry), max)
    decreases max - i
  {
    hide Turn;
    if i >= max {
    } else {
      var (t, next) := Turn(w, s, i, canRetry);
      TurnKeeps(w, s, i, canRetry);
      if next.Retry? {
        hide Live;
        hide Done;
        LoopDone(w, t, i + 1, max, canRetry);
      }
    }
  }

  // Whatever the backends, the client and other requests do: no backend is tried twice,
  // there are at most max attempts, all but the last failed with nothing committed, and
  // the client gets what the attempts sent, followed by the 503 page exactly when every
  // attempt failed with nothing committed.
  lemma OneRequest(w: World, p: Pool, q: Req, max: nat)
    ensures Done(w, Handle(w, p, q, max), max)
  {
    var (r, canRetry) := Prepared(p, q, max);
    LoopDone(w, Progress(p, r, {}, [], [], false), 0, max, canRetry);
  }

  // Where an entry of the log comes from.
  lemma {:induction false} SourceOf(trace: seq<Attempt>, k: nat)
    requires k < |Received(trace)|
    ensures var e := Received(trace)[k];
            && e.source.FromBackend? && e.source.attempt < |trace|
            && e.action in trace[e.source.attempt].reply.actions
  {
    var n := |trace| - 1;
    if k < |Received(trace[..n])| {
      SourceOf(trace[..n], k);
    } else {
      var j := k - |Received(trace[..n])|;
      assert Received(trace)[k].action == trace[n].reply.actions[j];
    }
  }

  ghost predicate OneCommittingSource(log: seq<Sent>) {
    forall j, k :: 0 <= j < |log| && 0 <= k < |log| && Commits(log[j].action) && Commits(log[k].action)
      ==> log[j].source == log[k].source
  }

  // All that commits comes from one source: the last attempt, or else the page.
  lemma OneSource(w: World, p: Pool, q: Req, max: nat)
    ensures OneCommittingSource(Handle(w, p, q, max).log)
  {
    hide Handle;
    OneRequest(w, p, q, max);
    var r := Handle(w, p, q, max);
    forall k | 0 <= k < |r.log| && Commits(r.log[k].action)
      ensures r.log[k].source == if FailedUpTo(r.trace, |r.trace|) then ErrorPage else FromBackend(|r.trace| - 1)
    {
      CommittingSource(w, r, max, k);
    }
  }

  lemma CommittingSource(w: World, r: Progress, max: nat, k: nat)
    requires Done(w, r, max) && k < |r.log| && Commits(r.log[k].action)
    ensures r.log[k].source == if FailedUpTo(r.trace, |r.trace|) then ErrorPage else FromBackend(|r.trace| - 1)
  {
    if k < |Received(r.trace)| {
      SourceOf(r.trace, k);
      assert r.log[k] == Received(r.trace)[k];
    }
  }

  // What the client makes of it: the status, which a write before any header sets to 200, and
  // the bytes.

  datatype Seen = Nothing | Status(code: int) | TakenOver

  function FirstSeen(log: seq<Sent>): Seen {
    if log == [] then Nothing
    else
      match log[0].action
      case WriteHeader(code) => Status(code)
      case Write(_) => Status(200)
      case Hijack(ok) => if ok then TakenOver else FirstSeen(log[1..])
      case Flush => FirstSeen(log[1..])
  }

  function Written(log: seq<Sent>): string {
    if log == [] then ""
    else (if log[0].action.Write? then log[0].action.bytes else "") + Written(log[1..])
  }

  ghost predicate NoneCommits(log: seq<Sent>) {
    forall k :: 0 <= k < |log| ==> !Commits(log[k].action)
  }

  // What commits is what the client sees.
  lemma {:induction false} CommitsSeen(log: seq<Sent>)
    ensures NoneCommits(log) <==> FirstSeen(log) == Nothing
  {
    if log == [] {
    } else {
      CommitsSeen(log[1..]);
      assert NoneCommits(log) <==> !Commits(log[0].action) && NoneCommits(log[1..]);
    }
  }

  lemma {:induction false} SeenAfter(a: seq<Sent>, b: seq<Sent>)
    requires NoneCommits(a)
    ensures FirstSeen(a + b) == FirstSeen(b) && Written(a + b) == Written(b)
  {
    if a == [] {
      assert a + b == b;
    } else {
      assert !Commits(a[0].action);
      assert (a + b)[1..] == a[1..] + b;
      SeenAfter(a[1..], b);
    }
  }

  lemma FailedCommitsNothing(trace: seq<Attempt>, n: nat)
    requires n <= |trace| && FailedUpTo(trace, n)
    ensures NoneCommits(Received(trace[..n]))
  {
    forall k | 0 <= k < |Received(trace[..n])| ensures !Commits(Received(trace[..n])[k].action) {
      SourceOf(trace[..n], k);
    }
  }

  // The client gets the last attempt's response, or, if every attempt failed with nothing
  // committed, a 503 that says so. Where no attempt succeeded it gets a response in any case.
  lemma ClientSees(w: World, p: Pool, q: Req, max: nat)
    ensures var r := Handle(w, p, q, max);
            if FailedUpTo(r.trace, |r.trace|) then
              && FirstSeen(r.log) == Status(503)
              && Written(r.log) == "Service Unavailable: No healthy backends available"
            else
              var last := SentBy(FromBackend(|r.trace| - 1), r.trace[|r.trace| - 1].reply.actions);
              && FirstSeen(r.log) == FirstSeen(last) && Written(r.log) == Written(last)
              && (!r.trace[|r.trace| - 1].reply.ok ==> FirstSeen(r.log) != Nothing)
  {
    hide Handle;
    OneRequest(w, p, q, max);
    var r := Handle(w, p, q, max);
    var n := |r.trace|;
    if FailedUpTo(r.trace, n) {
      FailedCommitsNothing(r.trace, n);
      assert r.trace[..n] == r.trace;
      hide Received;
      SeenAfter(Received(r.trace), Page());
      PageSeen();
    } else {
      FailedCommitsNothing(r.trace, n - 1);
      var last := SentBy(FromBackend(n - 1), r.trace[n - 1].reply.actions);
      assert r.log == Received(r.trace[..n - 1]) + last;
      LastSeen(r.trace[n - 1], n - 1);
      SeenAfter(Received(r.trace[..n - 1]), last);
    }
  }

  lemma LastSeen(a: Attempt, i: nat)
    requires !Failed(a)
    ensures a.reply.ok || FirstSeen(SentBy(FromBackend(i), a.reply.actions)) != Nothing
  {
    var sent := SentBy(FromBackend(i), a.reply.actions);
    CommitsSeen(sent);
    if k :| 0 <= k < |a.reply.actions| && Commits(a.reply.actions[k]) {
      assert Commits(sent[k].action);
    }
  }

  lemma PageSeen()
    ensures FirstSeen(Page()) == Status(503)
    ensures Written(Page()) == "Service Unavailable: No healthy backends available"
  {
    var page := Page();
    assert page[1..] == [page[1]] && page[1..][1..] == [];
  }

  // Flush goes through to the client and yet leaves the writer uncommitted.

  predicate Reaches(a: Action) {
    Commits(a) || a.Flush?
  }

  predicate Reaching(a: Attempt) {
    exists m :: 0 <= m < |a.reply.actions| && Reaches(a.reply.actions[m])
  }

  lemma {:induction false} InLog(trace: seq<Attempt>, i: nat, m: nat) returns (k: nat)
    requires i < |trace| && m < |trace[i].reply.actions|
    ensures k < |Received(trace)| && Received(trace)[k] == Sent(FromBackend(i), trace[i].reply.actions[m])
  {
    var n := |trace| - 1;
    if i < n {
      k := InLog(trace[..n], i, m);
    } else {
      k := |Received(trace[..n])| + m;
    }
  }

  ghost predicate OneVisibleSource(log: seq<Sent>) {
    forall j, k :: 0 <= j < |log| && 0 <= k < |log| && Reaches(log[j].action) && Reaches(log[k].action)
      ==> log[j].source == log[k].source
  }

  // In one run: where a success sends something, all the client sees comes from one source
  // exactly when no failed attempt had flushed.
  lemma OneVisibleSourceRunExactlyWhen(w: World, p: Pool, q: Req, max: nat)
    requires var trace := Handle(w, p, q, max).trace;
             forall i :: 0 <= i < |trace| && trace[i].reply.ok ==> Reaching(trace[i])
    ensures var r := Handle(w, p, q, max);
            OneVisibleSource(r.log) <==>
              forall i :: 0 <= i < |r.trace| && Failed(r.trace[i]) ==> Flush !in r.trace[i].reply.actions
  {
    OneRequest(w, p, q, max);
    var r := Handle(w, p, q, max);
    hide Handle;
    if i :| 0 <= i < |r.trace| && Failed(r.trace[i]) && Flush in r.trace[i].reply.actions {
      SeenTwice(w, r, max, i);
    } else {
      forall k | 0 <= k < |r.log| && Reaches(r.log[k].action)
        ensures r.log[k].source == if FailedUpTo(r.trace, |r.trace|) then ErrorPage else FromBackend(|r.trace| - 1)
      {
        VisibleSource(w, r, max, k);
      }
    }
  }

  lemma SeenTwice(w: World, r: Progress, max: nat, i: nat)
    requires Done(w, r, max) && i < |r.trace| && Failed(r.trace[i]) && Flush in r.trace[i].reply.actions
    requires forall k :: 0 <= k < |r.trace| && r.trace[k].reply.ok ==> Reaching(r.trace[k])
    ensures !OneVisibleSource(r.log)
  {
    var m :| 0 <= m < |r.trace[i].reply.actions| && r.trace[i].reply.actions[m] == Flush;
    var j := InLog(r.trace, i, m);
    assert r.log[j] == Sent(FromBackend(i), Flush);
    var n := |r.trace| - 1;
    if FailedUpTo(r.trace, n + 1) {
      assert r.log[|Received(r.trace)|] == Page()[0];
    } else {
      assert Reaching(r.trace[n]);
      var l :| 0 <= l < |r.trace[n].reply.actions| && Reaches(r.trace[n].reply.actions[l]);
      var k := InLog(r.trace, n, l);
      assert r.log[k].source == FromBackend(n);
    }
  }

  lemma VisibleSource(w: World, r: Progress, max: nat, k: nat)
    requires Done(w, r, max) && k < |r.log| && Reaches(r.log[k].action)
    requires forall i :: 0 <= i < |r.trace| && Failed(r.trace[i]) ==> Flush !in r.trace[i].reply.actions
    ensures r.log[k].source == if FailedUpTo(r.trace, |r.trace|) then ErrorPage else FromBackend(|r.trace| - 1)
  {
    if k < |Received(r.trace)| {
      SourceOf(r.trace, k);
      assert r.log[k] == Received(r.trace)[k];
    }
  }

  // Over all runs, by what backends may reply.

  ghost predicate NoStrayFlush(w: World) {
    forall i, a, b :: FailsUncommitted(w.serve(i, a, b)) ==> Flush !in w.serve(i, a, b).actions
  }

  lemma NoStrayFlushOneSource(w: World, p: Pool, q: Req, max: nat)
    requires NoStrayFlush(w)
    ensures OneVisibleSource(Handle(w, p, q, max).log)
  {
    OneRequest(w, p, q, max);
    var r := Handle(w, p, q, max);
    hide Handle;
    forall i | 0 <= i < |r.trace| && Failed(r.trace[i]) ensures Flush !in r.trace[i].reply.actions {
      assert r.trace[i].reply == w.serve(i, r.trace[i].address, r.trace[i].seen);
    }
    forall k | 0 <= k < |r.log| && Reaches(r.log[k].action)
      ensures r.log[k].source == if FailedUpTo(r.trace, |r.trace|) then ErrorPage else FromBackend(|r.trace| - 1)
    {
      VisibleSource(w, r, max, k);
    }
  }

  // Backends that answer by address and body, whoever else is about.
  ghost predicate ServedBy(w: World, serve: (string, Body) -> Reply) {
    forall i, a, b :: w.serve(i, a, b) == serve(a, b)
  }

  function Alone(serve: (string, Body) -> Reply): World {
    World("", i => 0, (i, m) => [], (i, a, b) => serve(a, b))
  }

  function OnlyBackend(a: string): Pool {
    Pool([Target(a, "", 1, true, 0, 0, 0, 0)], RoundRobin, 0)
  }

  // A reply that flushes and then fails uncommitted, and the run in which the client sees
  // the flush of the backend and then the page.
  lemma StrayFlushSeen(serve: (string, Body) -> Reply, a: string, b: Body)
    requires FailsUncommitted(serve(a, b)) && Flush in serve(a, b).actions
    ensures !OneVisibleSource(Handle(Alone(serve), OnlyBackend(a), Req(b, NoRewind), 1).log)
  {
    var w, p, q := Alone(serve), OnlyBackend(a), Req(b, NoRewind);
    OnlySelected(a, w.ip, w.draw(0));
    OneRequest(w, p, q, 1);
    hide Selected;
    hide Drawn;
    hide Committing;
    hide PoolAfter;
    hide SentBy;
    var t := Turn(w, Progress(p, q, {}, [], [], false), 0, true).0;
    assert t.trace == [Attempt(a, b, serve(a, b))];
    hide Turn;
    var r := Handle(w, p, q, 1);
    assert r.trace == t.trace;
    hide Handle;
    SeenTwice(w, r, 1, 0);
  }

  lemma OnlySelected(a: string, ip: string, draw: nat)
    ensures Selected(OnlyBackend(a), ip, draw) == Some(a)
  {
    var ts := OnlyBackend(a).targets;
    assert ts[..0] == [];
    assert Rotation(ts) == [] + ts;
    assert |Rotation(ts)| == 1;
    hide Rotation;
  }

  // Everything the client sees comes from one source, in all runs, exactly when no backend
  // flushes and then fails uncommitted.
  lemma OneVisibleSourceExactlyWhen(serve: (string, Body) -> Reply)
    ensures (forall w: World, p: Pool, q: Req, max: nat | ServedBy(w, serve) :: OneVisibleSource(Handle(w, p, q, max).log)) <==>
              forall a, b :: FailsUncommitted(serve(a, b)) ==> Flush !in serve(a, b).actions
  {
    if a, b :| FailsUncommitted(serve(a, b)) && Flush in serve(a, b).actions {
      StrayFlushSeen(serve, a, b);
      assert ServedBy(Alone(serve), serve);
    } else {
      forall w: World, p: Pool, q: Req, max: nat | ServedBy(w, serve) ensures OneVisibleSource(Handle(w, p, q, max).log) {
        NoStrayFlushOneSource(w, p, q, max);
      }
    }
  }

  // Nothing is sent to an address the pool did not have, unless somebody adds one meanwhile.

  ghost predicate NoneAdded(w: World) {
    forall i, m, k :: 0 <= k < |w.others(i, m)| ==> !(w.others(i, m)[k].Call? && w.others(i, m)[k].op.Add?)
  }

  ghost predicate Within(ts: seq<Target>, home: set<string>) {
    forall i :: 0 <= i < |ts| ==> ts[i].address in home
  }

  lemma StepWithin(ts: seq<Target>, op: Op, home: set<string>)
    requires Within(ts, home) && !op.Add?
    ensures Within(Step(ts, op), home)
  {
    hide HealthyCount;
  }

  lemma {:induction false} DisturbWithin(p: Pool, others: seq<Other>, home: set<string>)
    requires Within(p.targets, home)
    requires forall k :: 0 <= k < |others| ==> !(others[k].Call? && others[k].op.Add?)
    ensures Within(Disturb(p, others).targets, home)
    decreases |others|
  {
    if others == [] {
    } else {
      if others[0].Call? {
        StepWithin(p.targets, others[0].op, home);
      }
      DisturbWithin(Disturbed(p, others[0]), others[1..], home);
    }
  }

  lemma SelectedWithin(p: Pool, ip: string, draw: nat, home: set<string>)
    requires Within(p.targets, home) && Selected(p, ip, draw).Some?
    ensures Selected(p, ip, draw).value in home
  {
    RotationWithin(p.targets, Choice(p, ip, draw));
  }

  lemma ProxiedWithin(w: World, s: Progress, i: nat, a: string, b: Body, home: set<string>)
    requires NoneAdded(w) && Within(s.pool.targets, home)
    ensures Within(Proxied(w, s, i, a, b).pool.targets, home)
  {
    hide Step;
    hide Within;
    hide Disturb;
    var reply := w.serve(i, a, b);
    var p0 := Disturb(s.pool, w.others(i, BeforeRecord));
    DisturbWithin(s.pool, w.others(i, BeforeRecord), home);
    StepWithin(p0.targets, RecordRequest(a), home);
    var p1 := Apply(p0, RecordRequest(a));
    DisturbWithin(p1, w.others(i, WhileServing), home);
    var p2 := Disturb(p1, w.others(i, WhileServing));
    StepWithin(p2.targets, CompleteRequest(a), home);
    var p3 := Apply(p2, CompleteRequest(a));
    DisturbWithin(p3, w.others(i, BeforeVerdict), home);
    StepWithin(Disturb(p3, w.others(i, BeforeVerdict)).targets,
               if reply.ok then RecordSuccess(a) else RecordFailure(a), home);
  }

  lemma TurnWithin(w: World, s: Progress, i: nat, canRetry: bool, home: set<string>)
    requires NoneAdded(w) && Within(s.pool.targets, home) && Addresses(s.trace) <= home
    ensures var t := Turn(w, s, i, canRetry).0; Within(t.pool.targets, home) && Addresses(t.trace) <= home
  {
    hide Disturb;
    hide Selected;
    hide BodyFor;
    var p := Disturb(s.pool, w.others(i, BeforeSelect));
    DisturbWithin(s.pool, w.others(i, BeforeSelect), home);
    var selected := Selected(p, w.ip, w.draw(i));
    var b := BodyFor(s.req, i);
    if selected.Some? && selected.value !in s.tried && b.Some? {
      var a := selected.value;
      SelectedWithin(p, w.ip, w.draw(i), home);
      var s1 := s.(pool := Drawn(p, w.ip), tried := s.tried + {a});
      ProxiedWithin(w, s1, i, a, b.value, home);
    }
  }

  lemma {:induction false} LoopWithin(w: World, s: Progress, i: nat, max: nat, canRetry: bool, home: set<string>)
    requires NoneAdded(w) && Within(s.pool.targets, home) && Addresses(s.trace) <= home
    ensures Addresses(Loop(w, s, i, max, canRetry).trace) <= home
    decreases max - i
  {
    hide Turn;
    hide Within;
    if i >= max {
    } else {
      var (t, next) := Turn(w, s, i, canRetry);
      TurnWithin(w, s, i, canRetry, home);
      if next.Retry? {
        LoopWithin(w, t, i + 1, max, canRetry, home);
      }
    }
  }

  lemma {:induction false} CountAddresses(trace: seq<Attempt>)
    requires DistinctAddresses(trace)
    ensures |Addresses(trace)| == |trace|
  {
    if trace == [] {
    } else {
      var n := |trace| - 1;
      CountAddresses(trace[..n]);
      assert trace == trace[..n] + [trace[n]];
      assert Addresses(trace) == Addresses(trace[..n]) + {trace[n].address};
    }
  }

  function Homes(ts: seq<Target>): (home: set<string>)
    ensures |home| <= |ts| && Within(ts, home)
  {
    var l := seq(|ts|, i requires 0 <= i < |ts| => ts[i].address);
    assert forall i :: 0 <= i < |ts| ==> l[i] == ts[i].address;
    Elements(l)
  }

  // At most as many attempts as there are targets.
  lemma AttemptsBounded(w: World, p: Pool, q: Req, max: nat)
    requires NoneAdded(w)
    ensures |Handle(w, p, q, max).trace| <= |p.targets|
    ensures Addresses(Handle(w, p, q, max).trace) <= Homes(p.targets)
  {
    OneRequest(w, p, q, max);
    var (r, canRetry) := Prepared(p, q, max);
    LoopWithin(w, Progress(p, r, {}, [], [], false), 0, max, canRetry, Homes(p.targets));
    hide Handle;
    CountAddresses(Handle(w, p, q, max).trace);
    SubsetCount(Addresses(Handle(w, p, q, max).trace), Homes(p.targets));
  }

  lemma {:induction false} SubsetCount<T>(a: set<T>, b: set<T>)
    requires a <= b
    ensures |a| <= |b|
    ensures |a| == |b| ==> a == b
  {
    if a == {} {
    } else {
      var x :| x in a;
      SubsetCount(a - {x}, b - {x});
    }
  }
}
