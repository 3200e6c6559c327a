// internal/admin/sse.go: the event hub as a step system. Receiving from a channel and the
// critical section that follows are separate steps, so Stop, Send and the handlers may run
// between them.
module SSE {
  datatype Event = Event(kind: string, data: string)

  const CLIENT_BUFFER := 10
  const BROADCAST_BUFFER := 100

  // A client's channel. `taken`, `offered` and `missed` are its history: what the handler
  // received, what was broadcast while it was registered, and how much of that was dropped.
  datatype Chan = Chan(buffer: seq<Event>, closed: bool, taken: seq<Event>, offered: seq<Event>, missed: nat)

  // Where the Run loop is.
  datatype Runner = Idle | Registering(c: nat) | Unregistering(c: nat) | Broadcasting(e: Event) | Exited

  // Where Stop is: the Once lets a single call through.
  datatype Stopper = Running | DoneClosed | Swept

  // Clients are numbered in the order in which Run receives them. `crashed` records a close
  // of, or a send to, a closed channel, which Go answers with a panic. `accepted`,
  // `dequeued` and `refused` are the history of Send.
  datatype Hub = Hub(
    clients: set<nat>,
    chans: seq<Chan>,
    queue: seq<Event>,
    run: Runner,
    stop: Stopper,
    dropped: nat,
    crashed: bool,
    accepted: seq<Event>,
    dequeued: seq<Event>,
    refused: nat)

  function Start(): Hub {
    Hub({}, [], [], Idle, Running, 0, false, [], [], 0)
  }

  datatype Step =
    | TakeRegister
    | FinishRegister
    | TakeUnregister(c: nat)
    | FinishUnregister
    | TakeEvent
    | FinishBroadcast
    | Exit
    | CloseDone
    | Sweep
    | Send(e: Event)
    | Receive(c: nat)

  predicate Enabled(h: Hub, s: Step) {
    match s
    case TakeRegister => h.run.Idle?
    case FinishRegister => h.run.Registering?
    case TakeUnregister(c) => h.run.Idle? && c < |h.chans|
    case FinishUnregister => h.run.Unregistering?
    case TakeEvent => h.run.Idle? && h.queue != []
    case FinishBroadcast => h.run.Broadcasting?
    case Exit => h.run.Idle? && !h.stop.Running?
    case CloseDone => h.stop.Running?
    case Sweep => h.stop.DoneClosed?
    case Send(_) => true
    case Receive(c) => c < |h.chans| && h.chans[c].buffer != []
  }

  function Close(ch: Chan): Chan {
    ch.(closed := true)
  }

  // The inner select of a broadcast: enqueue, or count a drop when the buffer is full.
  function Offer(ch: Chan, e: Event): Chan {
    if |ch.buffer| < CLIENT_BUFFER then ch.(buffer := ch.buffer + [e], offered := ch.offered + [e])
    else ch.(missed := ch.missed + 1, offered := ch.offered + [e])
  }

  // Apply f to the channels of the clients.
  function ForClients(h: Hub, f: Chan -> Chan): seq<Chan> {
    seq(|h.chans|, i requires 0 <= i < |h.chans| => if i in h.clients then f(h.chans[i]) else h.chans[i])
  }

  function Missed(chans: seq<Chan>): nat {
    if chans == [] then 0 else Missed(chans[..|chans| - 1]) + chans[|chans| - 1].missed
  }

  // The clients whose buffers are full.
  function Slow(h: Hub): set<nat> {
    set c | c in h.clients && c < |h.chans| && |h.chans[c].buffer| >= CLIENT_BUFFER
  }

  predicate AnyClosed(h: Hub) {
    exists c :: c in h.clients && c < |h.chans| && h.chans[c].closed
  }

  function Next(h: Hub, s: Step): Hub
    requires Enabled(h, s)
  {
    match s
    case TakeRegister => h.(run := Registering(|h.chans|), chans := h.chans + [Chan([], false, [], [], 0)])
    case FinishRegister => h.(run := Idle, clients := h.clients + {h.run.c})
    case TakeUnregister(c) => h.(run := Unregistering(c))
    case FinishUnregister =>
      var c := h.run.c;
      if c in h.clients && c < |h.chans| then
        h.(run := Idle, clients := h.clients - {c}, chans := h.chans[c := Close(h.chans[c])],
           crashed := h.crashed || h.chans[c].closed)
      else h.(run := Idle)
    case TakeEvent => h.(run := Broadcasting(h.queue[0]), queue := h.queue[1..])
    case FinishBroadcast =>
      var chans := ForClients(h, ch => Offer(ch, h.run.e));
      h.(run := Idle, chans := chans, dropped := h.dropped + |Slow(h)|,
         crashed := h.crashed || AnyClosed(h), dequeued := h.dequeued + [h.run.e])
    case Exit => h.(run := Exited)
    case CloseDone => h.(stop := DoneClosed)
    case Sweep => h.(stop := Swept, clients := {}, chans := ForClients(h, ch => Close(ch)),
                     crashed := h.crashed || AnyClosed(h))
    case Send(e) =>
      if |h.queue| < BROADCAST_BUFFER then h.(queue := h.queue + [e], accepted := h.accepted + [e])
      else h.(dropped := h.dropped + 1, refused := h.refused + 1)
    case Receive(c) =>
      var ch := h.chans[c];
      h.(chans := h.chans[c := ch.(buffer := ch.buffer[1..], taken := ch.taken + [ch.buffer[0]])])
  }

  // The hub after a run of steps (steps that are not enabled are skipped).
  function RunOf(steps: seq<Step>): Hub {
    if steps == [] then Start()
    else
      var h := RunOf(steps[..|steps| - 1]);
      if Enabled(h, steps[|steps| - 1]) then Next(h, steps[|steps| - 1]) else h
  }

  // a can be had from b by leaving events out.
  predicate Subsequence(a: seq<Event>, b: seq<Event>) {
    if a == [] then true
    else if b == [] then false
    else if a[|a| - 1] == b[|b| - 1] && Subsequence(a[..|a| - 1], b[..|b| - 1]) then true
    else Subsequence(a, b[..|b| - 1])
  }

  lemma SubsequenceGrows(a: seq<Event>, b: seq<Event>, e: Event)
    requires Subsequence(a, b)
    ensures Subsequence(a + [e], b + [e]) && Subsequence(a, b + [e])
  {
    assert (a + [e])[..|a|] == a && (b + [e])[..|b|] == b;
  }

  // What a channel's history says: received in order, a subsequence of what was offered
  // while it was registered, each offer enqueued or counted as missed.
  ghost predicate Faithful(ch: Chan) {
    && |ch.buffer| <= CLIENT_BUFFER
    && Subsequence(ch.taken + ch.buffer, ch.offered)
    && |ch.offered| == |ch.taken + ch.buffer| + ch.missed
  }

  predicate StretchAt(offered: seq<Event>, dequeued: seq<Event>, k: nat) {
    k + |offered| <= |dequeued| && dequeued[k..k + |offered|] == offered
  }

  // A stretch of the dequeued events.
  ghost predicate Within(offered: seq<Event>, dequeued: seq<Event>) {
    exists k :: StretchAt(offered, dequeued, k)
  }

  predicate Listed(h: Hub, c: nat) {
    c in h.clients || h.run == Registering(c)
  }

  // A suffix of the dequeued events: the channel has been listed ever since.
  ghost predicate UpToDate(offered: seq<Event>, dequeued: seq<Event>) {
    |offered| <= |dequeued| && offered == dequeued[|dequeued| - |offered|..]
  }

  ghost predicate ChanOk(ch: Chan, listed: bool, dequeued: seq<Event>) {
    && (ch.closed <==> !listed)
    && Faithful(ch) && Within(ch.offered, dequeued)
    && (listed ==> UpToDate(ch.offered, dequeued))
  }

  ghost predicate Inv(h: Hub) {
    && !h.crashed
    && (forall c :: c in h.clients ==> c < |h.chans| && h.run != Registering(c))
    && (h.run.Registering? || h.run.Unregistering? ==> h.run.c < |h.chans|)
    && (forall c :: 0 <= c < |h.chans| ==> ChanOk(h.chans[c], Listed(h, c), h.dequeued))
    && h.accepted == h.dequeued + (if h.run.Broadcasting? then [h.run.e] else []) + h.queue
    && h.dropped == h.refused + Missed(h.chans)
  }

  // Counting what was missed.

  lemma {:induction false} MissedSame(a: seq<Chan>, b: seq<Chan>)
    requires |a| == |b| && forall c :: 0 <= c < |a| ==> a[c].missed == b[c].missed
    ensures Missed(a) == Missed(b)
  {
    if a == [] {
    } else {
      MissedSame(a[..|a| - 1], b[..|b| - 1]);
    }
  }

  function SlowBelow(h: Hub, n: nat): set<nat> {
    set c | c in h.clients && c < |h.chans| && c < n && |h.chans[c].buffer| >= CLIENT_BUFFER
  }

  lemma SlowNext(h: Hub, n: nat)
    requires n < |h.chans|
    ensures |SlowBelow(h, n + 1)|
         == |SlowBelow(h, n)| + if n in h.clients && |h.chans[n].buffer| >= CLIENT_BUFFER then 1 else 0
  {
    if n in h.clients && |h.chans[n].buffer| >= CLIENT_BUFFER {
      assert SlowBelow(h, n + 1) == SlowBelow(h, n) + {n};
    } else {
      assert SlowBelow(h, n + 1) == SlowBelow(h, n);
    }
  }

  lemma OfferMisses(ch: Chan, e: Event)
    ensures Offer(ch, e).missed == ch.missed + if |ch.buffer| >= CLIENT_BUFFER then 1 else 0
  {
  }

  lemma {:induction false} MissedBroadcast(h: Hub, e: Event, n: nat)
    requires n <= |h.chans|
    ensures Missed(ForClients(h, ch => Offer(ch, e))[..n]) == Missed(h.chans[..n]) + |SlowBelow(h, n)|
  {
    hide Offer;
    var all := ForClients(h, ch => Offer(ch, e));
    if n == 0 {
      assert SlowBelow(h, 0) == {};
    } else {
      SlowNext(h, n - 1);
      OfferMisses(h.chans[n - 1], e);
      hide SlowBelow;
      MissedBroadcast(h, e, n - 1);
      assert all[..n][..n - 1] == all[..n - 1] && h.chans[..n][..n - 1] == h.chans[..n - 1];
    }
  }

  // What a step does to one channel.

  lemma OfferFaithful(ch: Chan, e: Event)
    requires Faithful(ch)
    ensures Faithful(Offer(ch, e))
  {
    SubsequenceGrows(ch.taken + ch.buffer, ch.offered, e);
    assert ch.taken + (ch.buffer + [e]) == ch.taken + ch.buffer + [e];
  }

  lemma ReceiveFaithful(ch: Chan)
    requires Faithful(ch) && ch.buffer != []
    ensures Faithful(ch.(buffer := ch.buffer[1..], taken := ch.taken + [ch.buffer[0]]))
  {
    assert ch.taken + [ch.buffer[0]] + ch.buffer[1..] == ch.taken + ch.buffer;
  }

  lemma WithinGrows(offered: seq<Event>, dequeued: seq<Event>, e: Event)
    requires Within(offered, dequeued)
    ensures Within(offered, dequeued + [e])
  {
    var k: nat :| StretchAt(offered, dequeued, k);
    assert (dequeued + [e])[k..k + |offered|] == dequeued[k..k + |offered|];
    assert StretchAt(offered, dequeued + [e], k);
  }

  lemma SuffixWithin(offered: seq<Event>, dequeued: seq<Event>)
    requires |offered| <= |dequeued| && offered == dequeued[|dequeued| - |offered|..]
    ensures Within(offered, dequeued)
  {
    assert StretchAt(offered, dequeued, |dequeued| - |offered|);
  }

  lemma SuffixGrows(offered: seq<Event>, dequeued: seq<Event>, e: Event)
    requires UpToDate(offered, dequeued)
    ensures UpToDate(offered + [e], dequeued + [e]) && Within(offered + [e], dequeued + [e])
  {
    hide Within;
    assert offered + [e] == (dequeued + [e])[|dequeued| - |offered|..];
    SuffixWithin(offered + [e], dequeued + [e]);
  }

  lemma OfferOk(ch: Chan, e: Event, dequeued: seq<Event>)
    requires ChanOk(ch, true, dequeued)
    ensures ChanOk(Offer(ch, e), true, dequeued + [e])
  {
    hide Faithful;
    hide Within;
    hide UpToDate;
    OfferFaithful(ch, e);
    SuffixGrows(ch.offered, dequeued, e);
  }

  lemma PassedOverOk(ch: Chan, e: Event, dequeued: seq<Event>)
    requires ChanOk(ch, false, dequeued)
    ensures ChanOk(ch, false, dequeued + [e])
  {
    WithinGrows(ch.offered, dequeued, e);
  }

  lemma NewOk(dequeued: seq<Event>)
    ensures ChanOk(Chan([], false, [], [], 0), true, dequeued)
  {
    assert [] == dequeued[|dequeued|..];
    SuffixWithin([], dequeued);
  }

  // The invariant, step by step.

  lemma BroadcastKeeps(h: Hub)
    requires Inv(h) && h.run.Broadcasting?
    ensures Inv(Next(h, FinishBroadcast))
  {
    hide ChanOk;
    hide Missed;
    hide Offer;
    var e, g := h.run.e, Next(h, FinishBroadcast);
    assert !AnyClosed(h) by { NoneClosed(h); }
    forall c | 0 <= c < |h.chans| ensures ChanOk(g.chans[c], Listed(g, c), g.dequeued) {
      if c in h.clients {
        OfferOk(h.chans[c], e, h.dequeued);
      } else {
        PassedOverOk(h.chans[c], e, h.dequeued);
      }
    }
    MissedBroadcast(h, e, |h.chans|);
    assert SlowBelow(h, |h.chans|) == Slow(h);
    assert ForClients(h, ch => Offer(ch, e))[..|h.chans|] == g.chans && h.chans[..|h.chans|] == h.chans;
  }

  lemma NoneClosed(h: Hub)
    requires Inv(h)
    ensures !AnyClosed(h)
  {
  }

  lemma SweepKeeps(h: Hub)
    requires Inv(h) && h.stop.DoneClosed?
    ensures Inv(Next(h, Sweep))
  {
    hide Missed;
    hide Within;
    hide Faithful;
    var g := Next(h, Sweep);
    NoneClosed(h);
    MissedSame(h.chans, g.chans);
    forall c | 0 <= c < |h.chans| ensures ChanOk(g.chans[c], Listed(g, c), g.dequeued) {
      CloseFaithful(h.chans[c]);
    }
  }

  lemma CloseFaithful(ch: Chan)
    ensures Faithful(Close(ch)) <==> Faithful(ch)
  {
  }

  lemma UnregisterKeeps(h: Hub)
    requires Inv(h) && h.run.Unregistering?
    ensures Inv(Next(h, FinishUnregister))
  {
    hide Missed;
    hide Within;
    hide Faithful;
    var c, g := h.run.c, Next(h, FinishUnregister);
    if c in h.clients {
      MissedSame(h.chans, g.chans);
      CloseFaithful(h.chans[c]);
    }
  }

  lemma RegisterKeeps(h: Hub)
    requires Inv(h) && h.run.Idle?
    ensures Inv(Next(h, TakeRegister))
  {
    hide ChanOk;
    var g := Next(h, TakeRegister);
    NewOk(h.dequeued);
    assert g.chans[..|g.chans| - 1] == h.chans;
  }

  lemma ReceiveKeeps(h: Hub, c: nat)
    requires Inv(h) && c < |h.chans| && h.chans[c].buffer != []
    ensures Inv(Next(h, Receive(c)))
  {
    hide Missed;
    hide Within;
    var g := Next(h, Receive(c));
    ReceiveFaithful(h.chans[c]);
    hide Faithful;
    MissedSame(h.chans, g.chans);
  }

  lemma StepKeeps(h: Hub, s: Step)
    requires Inv(h) && Enabled(h, s)
    ensures Inv(Next(h, s))
  {
    match s
    case TakeRegister => hide *; RegisterKeeps(h);
    case FinishUnregister => hide *; UnregisterKeeps(h);
    case FinishBroadcast => hide *; BroadcastKeeps(h);
    case Sweep => hide *; SweepKeeps(h);
    case Receive(c) => hide *; ReceiveKeeps(h, c);
    case _ => OtherKeeps(h, s);
  }

  // The steps that touch no channel.
  lemma OtherKeeps(h: Hub, s: Step)
    requires Inv(h) && Enabled(h, s)
    requires s.FinishRegister? || s.TakeUnregister? || s.TakeEvent? || s.Exit? || s.CloseDone? || s.Send?
    ensures Inv(Next(h, s))
  {
    hide ChanOk;
    hide Missed;
    if s.TakeEvent? {
      assert h.queue == [h.queue[0]] + h.queue[1..];
    }
  }

  // In every interleaving no channel is closed twice or sent to after it was closed, each
  // client receives a subsequence of the accepted events in order, and every event that
  // was broadcast to a client is delivered, buffered, or counted as dropped.
  lemma {:induction false} HubSafe(steps: seq<Step>)
    ensures Inv(RunOf(steps))
  {
    if steps == [] {
    } else {
      HubSafe(steps[..|steps| - 1]);
      var h := RunOf(steps[..|steps| - 1]);
      if Enabled(h, steps[|steps| - 1]) {
        StepKeeps(h, steps[|steps| - 1]);
      }
    }
  }

  // What Send refuses, and what a broadcast drops.

  // The events of all Send calls.
  function Offered(steps: seq<Step>): seq<Event> {
    if steps == [] then []
    else Offered(steps[..|steps| - 1]) + if steps[|steps| - 1].Send? then [steps[|steps| - 1].e] else []
  }

  // Step k sends while a hundred events are waiting.
  ghost predicate FullAt(steps: seq<Step>, k: nat) {
    k < |steps| && steps[k].Send? && |RunOf(steps[..k]).queue| >= 100
  }

  lemma FullNext(steps: seq<Step>, s: Step)
    ensures (exists k :: FullAt(steps + [s], k)) <==>
              (exists k :: FullAt(steps, k)) || (s.Send? && |RunOf(steps).queue| >= 100)
  {
    hide RunOf;
    var all, n := steps + [s], |steps|;
    assert all[..n] == steps;
    forall k | 0 <= k < n ensures FullAt(all, k) <==> FullAt(steps, k) {
      assert all[..k] == steps[..k];
    }
    assert FullAt(all, n) <==> s.Send? && |RunOf(steps).queue| >= 100;
    if k: nat :| FullAt(all, k) {
      assert k <= n;
    }
    if k: nat :| FullAt(steps, k) {
      assert k < n;
    }
  }

  lemma SendNext(h: Hub, s: Step)
    requires Enabled(h, s) && |h.queue| <= 100
    ensures var g := Next(h, s);
            && |g.queue| <= 100
            && (if s.Send? && |h.queue| < 100 then g.accepted == h.accepted + [s.e] && g.refused == h.refused
                else g.accepted == h.accepted && g.refused == h.refused + if s.Send? then 1 else 0)
  {
    hide ForClients;
    hide Slow;
    hide AnyClosed;
  }

  // Never more than a hundred events wait. One is refused exactly if it comes when a hundred
  // do; and while none is, every event that is sent is accepted, in order.
  lemma {:induction false} RefusedExactlyWhen(steps: seq<Step>)
    ensures var h := RunOf(steps);
            && |h.queue| <= 100
            && |h.accepted| + h.refused == |Offered(steps)|
            && (h.refused > 0 <==> exists k :: FullAt(steps, k))
            && (h.refused == 0 ==> h.accepted == Offered(steps))
  {
    if steps == [] {
    } else {
      var before, s := steps[..|steps| - 1], steps[|steps| - 1];
      RefusedExactlyWhen(before);
      assert before + [s] == steps;
      FullNext(before, s);
      hide FullAt;
      if Enabled(RunOf(before), s) {
        SendNext(RunOf(before), s);
      }
      hide Next;
    }
  }

  // Step k broadcasts while ten events are waiting for client c.
  ghost predicate SlowAt(steps: seq<Step>, c: nat, k: nat) {
    && k < |steps| && steps[k] == FinishBroadcast
    && var h := RunOf(steps[..k]);
       h.run.Broadcasting? && c in h.clients && c < |h.chans| && |h.chans[c].buffer| >= 10
  }

  lemma SlowLater(steps: seq<Step>, s: Step, c: nat)
    ensures (exists k :: SlowAt(steps + [s], c, k)) <==>
              (exists k :: SlowAt(steps, c, k)) || SlowAt(steps + [s], c, |steps|)
  {
    hide RunOf;
    var all, n := steps + [s], |steps|;
    forall k | 0 <= k < n ensures SlowAt(all, c, k) <==> SlowAt(steps, c, k) {
      assert all[..k] == steps[..k];
    }
    if k: nat :| SlowAt(all, c, k) {
      assert k <= n;
    }
    if k: nat :| SlowAt(steps, c, k) {
      assert k < n;
    }
  }

  lemma MissedNext(h: Hub, s: Step, c: nat)
    requires Enabled(h, s) && c < |Next(h, s).chans|
    ensures Next(h, s).chans[c].missed ==
              (if c < |h.chans| then h.chans[c].missed else 0)
              + if s == FinishBroadcast && c in h.clients && c < |h.chans| && |h.chans[c].buffer| >= 10 then 1 else 0
  {
    hide Slow;
    hide AnyClosed;
  }

  // A client misses an event exactly if ten others are waiting for it when it is broadcast.
  lemma {:induction false} MissedExactlyWhen(steps: seq<Step>, c: nat)
    requires c < |RunOf(steps).chans|
    ensures RunOf(steps).chans[c].missed > 0 <==> exists k :: SlowAt(steps, c, k)
  {
    var before, s := steps[..|steps| - 1], steps[|steps| - 1];
    var h := RunOf(before);
    assert before + [s] == steps && steps[..|before|] == before;
    SlowLater(before, s, c);
    if c < |h.chans| {
      MissedExactlyWhen(before, c);
    } else {
      NotYetSlow(before, c);
    }
    if Enabled(h, s) {
      MissedNext(h, s, c);
    }
    hide Next;
    hide RunOf;
  }

  lemma {:induction false} NotYetSlow(steps: seq<Step>, c: nat)
    requires c >= |RunOf(steps).chans|
    ensures forall k :: !SlowAt(steps, c, k)
  {
    if steps == [] {
    } else {
      var before, s := steps[..|steps| - 1], steps[|steps| - 1];
      assert before + [s] == steps && steps[..|before|] == before;
      SlowLater(before, s, c);
      if Enabled(RunOf(before), s) {
        ChansGrow(RunOf(before), s);
      }
      hide Next;
      NotYetSlow(before, c);
    }
  }

  lemma ChansGrow(h: Hub, s: Step)
    requires Enabled(h, s)
    ensures |Next(h, s).chans| >= |h.chans|
  {
  }

  // Stop, on the schedule: steps[k] is its sweep.

  ghost predicate SweepAt(steps: seq<Step>, k: nat) {
    k < |steps| && steps[k] == Sweep && Enabled(RunOf(steps[..k]), Sweep)
  }

  // Registered too late for the sweep: not yet received, or received but not yet in the map.
  ghost predicate Late(steps: seq<Step>, k: nat, c: nat)
    requires k <= |steps|
  {
    c >= |RunOf(steps[..k]).chans| || RunOf(steps[..k]).run == Registering(c)
  }

  // Step n takes the unregistration of c to its end.
  ghost predicate UnregistersAt(steps: seq<Step>, n: nat, c: nat) {
    n < |steps| && steps[n] == FinishUnregister && RunOf(steps[..n]).run == Unregistering(c)
  }

  ghost predicate UnregisteredSince(steps: seq<Step>, k: nat, c: nat) {
    exists n :: k < n < |steps| && UnregistersAt(steps, n, c)
  }

  // What one step after the sweep does to the list of one client.
  lemma ListedNext(h: Hub, s: Step, c: nat)
    requires Inv(h) && Enabled(h, s) && h.stop.Swept? && c < |Next(h, s).chans|
    ensures Listed(Next(h, s), c) <==>
              c >= |h.chans| || (Listed(h, c) && !(s.FinishUnregister? && h.run == Unregistering(c)))
  {
    hide ChanOk;
    hide Missed;
  }

  lemma UnregisteredNext(steps: seq<Step>, s: Step, k: nat, c: nat)
    requires k < |steps|
    ensures UnregisteredSince(steps + [s], k, c) <==>
              UnregisteredSince(steps, k, c) || (s.FinishUnregister? && RunOf(steps).run == Unregistering(c))
  {
    var all := steps + [s];
    assert all[..|steps|] == steps;
    forall n | 0 <= n < |steps| ensures UnregistersAt(all, n, c) <==> UnregistersAt(steps, n, c) {
      assert all[..n] == steps[..n];
    }
    if s.FinishUnregister? && RunOf(steps).run == Unregistering(c) {
      assert UnregistersAt(all, |steps|, c);
    }
  }

  // From the sweep on, the clients in the map are the late ones that have not gone again.
  lemma {:induction false} ListedSince(steps: seq<Step>, k: nat, c: nat)
    requires SweepAt(steps, k)
    ensures var h := RunOf(steps);
            && h.stop.Swept? && |h.chans| >= |RunOf(steps[..k]).chans|
            && (c < |h.chans| ==> (Listed(h, c) <==> Late(steps, k, c) && !UnregisteredSince(steps, k, c)))
            && (c >= |h.chans| ==> !UnregisteredSince(steps, k, c))
  {
    hide Inv;
    hide Next;
    hide Listed;
    hide UnregistersAt;
    var n := |steps| - 1;
    var before, s := steps[..n], steps[n];
    HubSafe(before);
    if k == n {
      SweptLists(RunOf(before), c);
    } else {
      assert steps == before + [s];
      assert before[..k] == steps[..k];
      ListedSince(before, k, c);
      UnregisteredNext(before, s, k, c);
      hide UnregisteredSince;
      var h := RunOf(before);
      if Enabled(h, s) {
        SweptStays(h, s);
        if c < |Next(h, s).chans| {
          ListedNext(h, s, c);
        }
      }
    }
  }

  // The sweep leaves a registration on its way.
  lemma SweptLists(h: Hub, c: nat)
    requires Inv(h) && Enabled(h, Sweep)
    ensures var g := Next(h, Sweep);
            && g.stop.Swept? && |g.chans| == |h.chans|
            && (Listed(g, c) <==> h.run == Registering(c))
  {
    hide Inv;
  }

  lemma SweptStays(h: Hub, s: Step)
    requires Enabled(h, s) && h.stop.Swept?
    ensures Next(h, s).stop.Swept? && |Next(h, s).chans| >= |h.chans|
  {
  }

  // After Stop a channel is open exactly if it was registered too late for the sweep and
  // has not been unregistered since.
  lemma OpenAfterStop(steps: seq<Step>, k: nat, c: nat)
    requires SweepAt(steps, k) && c < |RunOf(steps).chans|
    ensures !RunOf(steps).chans[c].closed <==> Late(steps, k, c) && !UnregisteredSince(steps, k, c)
  {
    HubSafe(steps);
    ListedSince(steps, k, c);
    hide RunOf;
    hide UnregisteredSince;
    hide Late;
  }

  ghost predicate AllClosed(h: Hub) {
    forall c :: 0 <= c < |h.chans| ==> h.chans[c].closed
  }

  // So Stop has closed everything exactly when every late registration has been undone ...
  lemma StopClosesAllExactlyWhen(steps: seq<Step>, k: nat)
    requires SweepAt(steps, k)
    ensures AllClosed(RunOf(steps)) <==>
              forall c: nat :: c < |RunOf(steps).chans| && Late(steps, k, c) ==> UnregisteredSince(steps, k, c)
  {
    forall c: nat | c < |RunOf(steps).chans|
      ensures !RunOf(steps).chans[c].closed <==> Late(steps, k, c) && !UnregisteredSince(steps, k, c)
    {
      OpenAfterStop(steps, k, c);
    }
    hide RunOf;
    hide UnregisteredSince;
    hide Late;
  }

  lemma SweepLeaves(h: Hub, c: nat)
    requires Inv(h) && h.stop.DoneClosed? && c < |h.chans|
    ensures Next(h, Sweep).chans[c].closed <==> h.run != Registering(c)
  {
    hide Missed;
    hide Faithful;
    hide Within;
    hide UpToDate;
  }

  // ... and at the moment of the sweep, exactly when the loop is not holding a registration.
  lemma SweepClosesAllExactlyWhen(steps: seq<Step>, k: nat)
    requires SweepAt(steps, k) && k == |steps| - 1
    ensures AllClosed(RunOf(steps)) <==> !RunOf(steps[..k]).run.Registering?
  {
    hide Inv;
    hide Next;
    hide Enabled;
    hide AllClosed;
    HubSafe(steps[..k]);
    SweepLeavesOne(RunOf(steps[..k]));
  }

  lemma SweepLeavesOne(h: Hub)
    requires Inv(h) && Enabled(h, Sweep)
    ensures AllClosed(Next(h, Sweep)) <==> !h.run.Registering?
  {
    var g := Next(h, Sweep);
    assert |g.chans| == |h.chans|;
    assert h.run.Registering? ==> h.run.c < |h.chans|;
    hide Inv;
    hide Next;
    forall c: nat | c < |h.chans| ensures g.chans[c].closed <==> h.run != Registering(c) {
      SweepLeaves(h, c);
    }
    if h.run.Registering? {
      assert !g.chans[h.run.c].closed;
    }
  }

  // The Run loop may take a registration in after Stop has swept, and then nobody closes it.
  lemma StopCanLeak()
    ensures var h := RunOf([CloseDone, Sweep, TakeRegister, FinishRegister, Exit]);
            h.stop.Swept? && h.run.Exited? && |h.chans| == 1 && !h.chans[0].closed
  {
    var all := [CloseDone, Sweep, TakeRegister, FinishRegister, Exit];
    assert all[..4] == [CloseDone, Sweep, TakeRegister, FinishRegister];
    assert all[..4][..3] == [CloseDone, Sweep, TakeRegister];
    assert all[..4][..3][..2] == [CloseDone, Sweep];
    assert all[..4][..3][..2][..1] == [CloseDone];
    assert all[..4][..3][..2][..1][..0] == [];
    assert RunOf([CloseDone]) == Next(Start(), CloseDone);
    assert RunOf([CloseDone, Sweep]) == Next(Next(Start(), CloseDone), Sweep);
  }
}
