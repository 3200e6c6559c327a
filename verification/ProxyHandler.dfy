// internal/router/failover.go and the handler of internal/router/router.go, with the objects
// they update: the request, the writer and the pool.
module ProxyHandler {
  import opened Backend
  import opened Failover
  import opened Options
  import opened Selection
  import opened Targets

  class Request {
    var body: Body
    var rewind: Rewind

    constructor (body: Body, rewind: Rewind)
      ensures Value() == Req(body, rewind)
    {
      this.body, this.rewind := body, rewind;
    }

    function Value(): Req
      reads this
    {
      Req(body, rewind)
    }

    // io.ReadAll over io.LimitReader: the stream keeps what is beyond the limit.
    method ReadUpTo(limit: nat) returns (buf: string, failed: bool)
      requires body.Stream?
      modifies this`body
      ensures var content, broken := old(body.content), old(body.broken);
              if |content| < limit then buf == content && failed == broken && body == Stream("", broken)
              else buf == content[..limit] && !failed && body == Stream(content[limit..], broken)
    {
      var content := body.content;
      if |content| < limit {
        buf, failed := content, body.broken;
        body := Stream("", body.broken);
      } else {
        buf, failed := content[..limit], false;
        body := Stream(content[limit..], body.broken);
      }
    }

    method MakeReplayable() returns (ok: bool)
      modifies this
      ensures (Value(), ok) == Failover.MakeReplayable(old(Value()))
    {
      if body.NoBody? || !rewind.NoRewind? {
        return true;
      }
      var buf, failed := ReadUpTo(MAX_REPLAY_BODY_SIZE + 1);
      if failed {
        return false;
      }
      if |buf| > MAX_REPLAY_BODY_SIZE {
        body := Stream(buf + body.content, body.broken);
        return false;
      }
      body := Stream(buf, false);
      rewind := Copy(buf);
      return true;
    }

    // A backend reads n bytes of the body.
    method Read(n: nat)
      modifies this`body
      ensures body == Unread(old(body), n)
    {
      body := Unread(body, n);
    }
  }

  class FailoverWriter {
    var committed: bool
    // What the underlying writer has been given, and on whose behalf.
    ghost var sent: seq<Sent>

    constructor ()
      ensures !committed && sent == []
    {
      committed, sent := false, [];
    }

    method WriteHeader(code: int, ghost source: Source)
      modifies this
      ensures committed && sent == old(sent) + [Sent(source, Action.WriteHeader(code))]
    {
      committed := true;
      sent := sent + [Sent(source, Action.WriteHeader(code))];
    }

    method Write(bytes: string, ghost source: Source)
      modifies this
      ensures committed && sent == old(sent) + [Sent(source, Action.Write(bytes))]
    {
      committed := true;
      sent := sent + [Sent(source, Action.Write(bytes))];
    }

    method Flush(ghost source: Source)
      modifies this`sent
      ensures sent == old(sent) + [Sent(source, Action.Flush)]
    {
      sent := sent + [Sent(source, Action.Flush)];
    }

    // `ok` is whether the underlying writer lets go of the connection.
    method Hijack(ok: bool, ghost source: Source)
      modifies this
      ensures committed == (old(committed) || ok)
      ensures sent == old(sent) + [Sent(source, Action.Hijack(ok))]
    {
      if ok {
        committed := true;
      }
      sent := sent + [Sent(source, Action.Hijack(ok))];
    }

    // The calls one reply makes. The writer is committed exactly when one of them commits.
    method Receive(actions: seq<Action>, ghost source: Source)
      modifies this
      ensures committed == (old(committed) || Committing(actions))
      ensures sent == old(sent) + SentBy(source, actions)
    {
      for i := 0 to |actions|
        invariant committed == (old(committed) || exists k :: 0 <= k < i && Commits(actions[k]))
        invariant sent == old(sent) + SentBy(source, actions[..i])
      {
        match actions[i] {
          case WriteHeader(code) => WriteHeader(code, source);
          case Write(bytes) => Write(bytes, source);
          case Flush => Flush(source);
          case Hijack(ok) => Hijack(ok, source);
        }
        assert SentBy(source, actions[..i + 1]) == SentBy(source, actions[..i]) + [Sent(source, actions[i])];
      }
      assert actions[..|actions|] == actions;
    }

    // handleNoBackend.
    method Unavailable()
      modifies this
      ensures committed && sent == old(sent) + Page()
    {
      WriteHeader(503, ErrorPage);
      Write(UNAVAILABLE, ErrorPage);
    }
  }

  function PoolValue(pool: BackendPool): Pool
    reads pool, pool.targets
  {
    Pool(pool.Contents(), pool.strategy, pool.rrCounter)
  }

  // Every target of the pool was there before or is new.
  twostate predicate GrownFresh(pool: BackendPool)
    reads pool
  {
    forall i :: 0 <= i < |pool.targets| ==> pool.targets[i] in old(pool.targets) || fresh(pool.targets[i])
  }

  // What other requests and the control plane do to the pool, one critical section each.

  method Other(pool: BackendPool, o: Failover.Other)
    requires pool.Valid()
    modifies pool, pool.targets
    ensures pool.Valid() && PoolValue(pool) == Disturbed(old(PoolValue(pool)), o)
    ensures GrownFresh(pool)
  {
    match o
    case Call(op) => OtherCall(pool, op);
    case Draw(ip) =>
      var _, _ := pool.Select(ip, 0);
    case SetStrategy(s) => pool.SetStrategy(s);
  }

  method OtherCall(pool: BackendPool, op: Op)
    requires pool.Valid()
    modifies pool, pool.targets
    ensures pool.Valid() && PoolValue(pool) == Apply(old(PoolValue(pool)), op)
    ensures GrownFresh(pool)
  {
    hide Step;
    match op
    case Add(target) => OtherAdd(pool, target);
    case Remove(c) => pool.Remove(c);
    case MarkHealthy(a) => pool.MarkHealthy(a);
    case MarkUnhealthy(a) => pool.MarkUnhealthy(a);
    case RecordRequest(a) => pool.RecordRequest(a);
    case CompleteRequest(a) => pool.CompleteRequest(a);
    case RecordSuccess(a) => pool.RecordSuccess(a);
    case RecordFailure(a) => pool.RecordFailure(a);
  }

  method OtherAdd(pool: BackendPool, target: Target)
    requires pool.Valid()
    modifies pool, pool.targets
    ensures pool.Valid() && PoolValue(pool) == Apply(old(PoolValue(pool)), Op.Add(target))
    ensures GrownFresh(pool)
  {
    hide Step;
    var t := new BackendTarget(target.address, target.containerID, target.weight, target.healthy);
    t.requests, t.failures := target.requests, target.failures;
    t.activeConns, t.consecFail := target.activeConns, target.consecFail;
    Untouched(pool);
    pool.Add(t);
  }

  method Others(pool: BackendPool, others: seq<Failover.Other>)
    requires pool.Valid()
    modifies pool, pool.targets
    ensures pool.Valid() && PoolValue(pool) == Disturb(old(PoolValue(pool)), others)
    ensures GrownFresh(pool)
  {
    hide Disturbed;
    var i := 0;
    while i < |others|
      invariant i <= |others| && pool.Valid()
      invariant Disturb(PoolValue(pool), others[i..]) == Disturb(old(PoolValue(pool)), others)
      invariant GrownFresh(pool)
    {
      assert others[i..][1..] == others[i + 1..];
      Other(pool, others[i]);
      i := i + 1;
    }
  }

  // serve: the backend reads some of the body, and its reply goes straight through.
  method Serve(w: World, i: nat, address: string, req: Request, fw: FailoverWriter) returns (reply: Reply)
    modifies req`body, fw
    ensures reply == w.serve(i, address, old(req.body))
    ensures req.body == Unread(old(req.body), reply.read)
    ensures fw.committed == (old(fw.committed) || Committing(reply.actions))
    ensures fw.sent == old(fw.sent) + SentBy(FromBackend(i), reply.actions)
  {
    reply := w.serve(i, address, req.body);
    req.Read(reply.read);
    fw.Receive(reply.actions, FromBackend(i));
  }

  // The calls this request makes around an attempt.

  method Begin(pool: BackendPool, address: string)
    requires pool.Valid()
    modifies pool.targets
    ensures pool.Valid() && PoolValue(pool) == Apply(old(PoolValue(pool)), Op.RecordRequest(address))
  {
    hide Step;
    pool.RecordRequest(address);
  }

  method End(pool: BackendPool, address: string)
    requires pool.Valid()
    modifies pool.targets
    ensures pool.Valid() && PoolValue(pool) == Apply(old(PoolValue(pool)), Op.CompleteRequest(address))
  {
    hide Step;
    pool.CompleteRequest(address);
  }

  method Verdict(pool: BackendPool, address: string, ok: bool)
    requires pool.Valid()
    modifies pool.targets
    ensures pool.Valid()
    ensures PoolValue(pool)
         == Apply(old(PoolValue(pool)), if ok then Op.RecordSuccess(address) else Op.RecordFailure(address))
  {
    hide Step;
    if ok {
      pool.RecordSuccess(address);
    } else {
      pool.RecordFailure(address);
    }
  }

  method Conclude(w: World, pool: BackendPool, i: nat, address: string, ok: bool)
    requires pool.Valid()
    modifies pool, pool.targets
    ensures pool.Valid() && GrownFresh(pool)
    ensures PoolValue(pool) == Concluded(w, old(PoolValue(pool)), i, address, ok)
  {
    hide Disturb;
    hide Apply;
    hide PoolValue;
    Others(pool, w.others(i, WhileServing));
    End(pool, address);
    Others(pool, w.others(i, BeforeVerdict));
    Verdict(pool, address, ok);
  }

  // One attempt at a backend, with its book-keeping.
  method Exchange(w: World, pool: BackendPool, i: nat, address: string, req: Request, fw: FailoverWriter)
    returns (reply: Reply)
    requires pool.Valid()
    modifies pool, pool.targets, req`body, fw
    ensures pool.Valid() && GrownFresh(pool)
    ensures reply == w.serve(i, address, old(req.body))
    ensures PoolValue(pool) == PoolAfter(w, old(PoolValue(pool)), i, address, reply.ok)
    ensures req.body == Unread(old(req.body), reply.read)
    ensures fw.committed == (old(fw.committed) || Committing(reply.actions))
    ensures fw.sent == old(fw.sent) + SentBy(FromBackend(i), reply.actions)
  {
    hide Disturb;
    hide Apply;
    hide PoolValue;
    hide Concluded;
    hide Committing;
    hide Unread;
    Others(pool, w.others(i, BeforeRecord));
    Begin(pool, address);
    reply := Serve(w, i, address, req, fw);
    Conclude(w, pool, i, address, reply.ok);
  }

  // Select, as the loop sees it.
  method Choose(pool: BackendPool, ip: string, draw: nat) returns (backend: BackendTarget?)
    requires pool.Valid()
    modifies pool`rrCounter
    ensures pool.Valid() && PoolValue(pool) == Drawn(old(PoolValue(pool)), ip)
    ensures Selected(old(PoolValue(pool)), ip, draw) == if backend == null then None else Some(backend.address)
  {
    ghost var p := PoolValue(pool);
    ghost var choice;
    backend, choice := pool.Select(ip, draw);
    if Rotation(p.targets) != [] {
      ChoiceUnique(p, ip, draw, choice);
    }
    hide Rotation;
    hide Choice;
  }

  // The request for attempt i: the original, or a clone with a fresh body; None if the body
  // cannot be rewound.
  method Rewound(req: Request, i: nat) returns (attempt: Request?)
    ensures attempt != null <==> BodyFor(req.Value(), i).Some?
    ensures attempt != null ==> attempt.body == BodyFor(req.Value(), i).value
    ensures attempt != null ==> if i == 0 || req.rewind.NoRewind? then attempt == req else fresh(attempt)
  {
    if i > 0 && !req.rewind.NoRewind? {
      if req.rewind.Fails? {
        return null;
      }
      attempt := new Request(Stream(req.rewind.content, false), req.rewind);
    } else {
      attempt := req;
    }
  }

  // The loop's variables are those of s.
  ghost predicate Tracks(s: Progress, pool: BackendPool, req: Request, tried: set<string>, fw: FailoverWriter)
    reads pool, pool.targets, req, fw
  {
    && s.pool == PoolValue(pool) && s.req == req.Value()
    && s.tried == tried && s.log == fw.sent && s.committed == fw.committed
  }

  // The part of the loop body that follows the choice of an untried backend.
  method Attempt(w: World, pool: BackendPool, req: Request, fw: FailoverWriter, i: nat, canRetry: bool,
                 address: string, ghost s: Progress)
    returns (next: Next, ghost t: Progress)
    requires pool.Valid() && Tracks(s, pool, req, s.tried, fw)
    modifies pool, pool.targets, req`body, fw
    ensures pool.Valid() && GrownFresh(pool) && Tracks(t, pool, req, s.tried, fw)
    ensures var b := BodyFor(s.req, i);
            if b.None? then t == s && next == GiveUp
            else
              && t == Proxied(w, s, i, address, b.value)
              && next == (if w.serve(i, address, b.value).ok || t.committed then Answered
                          else if canRetry then Retry else GiveUp)
  {
    hide Unread;
    hide PoolAfter;
    hide PoolValue;
    hide Committing;
    t := s;
    var attempt := Rewound(req, i);
    if attempt == null {
      return GiveUp, t;
    }
    t := Proxied(w, s, i, address, attempt.body);
    var reply := Exchange(w, pool, i, address, attempt, fw);
    if reply.ok {
      return Answered, t;
    }
    if fw.committed {
      return Answered, t;
    }
    next := if canRetry then Retry else GiveUp;
  }

  // The loop body.
  method TakeTurn(w: World, pool: BackendPool, req: Request, fw: FailoverWriter, i: nat, canRetry: bool,
                  tried: set<string>, ghost s: Progress)
    returns (triedNow: set<string>, next: Next, ghost t: Progress)
    requires pool.Valid() && Tracks(s, pool, req, tried, fw)
    modifies pool, pool.targets, req`body, fw
    ensures pool.Valid() && GrownFresh(pool) && Tracks(t, pool, req, triedNow, fw)
    ensures (t, next) == Turn(w, s, i, canRetry)
  {
    hide Disturb;
    hide Drawn;
    hide Selected;
    hide Proxied;
    hide BodyFor;
    hide PoolValue;
    Others(pool, w.others(i, BeforeSelect));
    var backend := Choose(pool, w.ip, w.draw(i));
    triedNow := tried;
    t := s.(pool := PoolValue(pool));
    if backend == null {
      return triedNow, GiveUp, t;
    }
    if backend.address in tried {
      return triedNow, GiveUp, t;
    }
    triedNow := tried + {backend.address};
    next, t := Attempt(w, pool, req, fw, i, canRetry, backend.address, t.(tried := triedNow));
  }

  // Buffer the body where failover could happen.
  method Prepare(pool: BackendPool, req: Request, maxRetries: nat) returns (canRetry: bool)
    modifies req
    ensures (req.Value(), canRetry) == Prepared(PoolValue(pool), old(req.Value()), maxRetries)
  {
    hide Failover.MakeReplayable;
    canRetry := true;
    if maxRetries > 1 {
      var count := pool.HealthyCount();
      if count > 1 {
        canRetry := req.MakeReplayable();
      }
    }
  }

  // The handler: what it does to the pool, to the request and to the client is what
  // Failover.Handle says, whatever the backends and other requests do.
  method Handle(w: World, pool: BackendPool, req: Request, fw: FailoverWriter, maxRetries: nat)
    returns (ghost r: Progress)
    requires pool.Valid() && !fw.committed && fw.sent == []
    modifies pool, pool.targets, req, fw
    ensures pool.Valid()
    ensures r == Failover.Handle(w, old(PoolValue(pool)), old(req.Value()), maxRetries)
    ensures Tracks(r, pool, req, r.tried, fw)
  {
    hide Turn;
    hide Prepared;
    hide PoolValue;
    var canRetry := Prepare(pool, req, maxRetries);
    var tried: set<string> := {};
    r := Progress(PoolValue(pool), req.Value(), tried, [], [], false);
    var attempt := 0;
    var next := Retry;
    while attempt < maxRetries && next.Retry?
      invariant attempt <= maxRetries && pool.Valid() && GrownFresh(pool)
      invariant Tracks(r, pool, req, tried, fw)
      invariant Failover.Handle(w, old(PoolValue(pool)), old(req.Value()), maxRetries) ==
                match next
                case Retry => Loop(w, r, attempt, maxRetries, canRetry)
                case GiveUp => Finish(r)
                case Answered => r
    {
      tried, next, r := TakeTurn(w, pool, req, fw, attempt, canRetry, tried, r);
      attempt := attempt + 1;
    }
    if next.Answered? {
      return;
    }
    if !fw.committed {
      fw.Unavailable();
    }
    r := Finish(r);
  }
}
