// internal/admin/sse.go: the hub object. Each method is one step of the Run loop, of Stop,
// of Send or of a handler; closing or sending to a channel requires that it is open.
module SSEHubs {
  import opened SSE

  // How many slow clients have been passed over when `todo` is left.
  ghost function PassedOver(h: Hub, todo: set<nat>): nat {
    |Slow(h) - todo|
  }

  lemma PassedNext(h: Hub, todo: set<nat>, c: nat)
    requires c in todo && c in h.clients && c < |h.chans|
    ensures PassedOver(h, todo - {c})
         == PassedOver(h, todo) + if |h.chans[c].buffer| >= CLIENT_BUFFER then 1 else 0
  {
    var slow := Slow(h);
    assert c in slow <==> |h.chans[c].buffer| >= CLIENT_BUFFER;
    assert slow - (todo - {c}) == if c in slow then slow - todo + {c} else slow - todo;
  }

  lemma PassedEnds(h: Hub)
    ensures PassedOver(h, h.clients) == 0 && PassedOver(h, {}) == |Slow(h)|
  {
    assert Slow(h) - h.clients == {} && Slow(h) - {} == Slow(h);
  }

  // The channels was, with f applied to those of all but todo.
  ghost function Partly(was: seq<Chan>, all: set<nat>, todo: set<nat>, f: Chan -> Chan): (chans: seq<Chan>)
    ensures |chans| == |was|
    ensures forall c :: 0 <= c < |was| ==> chans[c] == if c in all && c !in todo then f(was[c]) else was[c]
  {
    seq(|was|, c requires 0 <= c < |was| => if c in all && c !in todo then f(was[c]) else was[c])
  }

  lemma PartlyNext(was: seq<Chan>, all: set<nat>, todo: set<nat>, c: nat, f: Chan -> Chan)
    requires c in all && c in todo && c < |was|
    ensures Partly(was, all, todo, f)[c] == was[c]
    ensures Partly(was, all, todo, f)[c := f(was[c])] == Partly(was, all, todo - {c}, f)
  {
  }

  lemma PartlyNone(was: seq<Chan>, all: set<nat>, f: Chan -> Chan)
    ensures Partly(was, all, all, f) == was
  {
  }

  lemma ClientsOpen(h: Hub)
    requires Inv(h)
    ensures forall c :: c in h.clients ==> c < |h.chans| && !h.chans[c].closed
  {
    NoneClosed(h);
  }

  lemma BroadcastAll(h: Hub, g: Hub)
    requires h.run.Broadcasting? && !AnyClosed(h)
    requires g.chans == Partly(h.chans, h.clients, {}, ch => Offer(ch, h.run.e))
    requires g == h.(run := Idle, chans := g.chans, dropped := h.dropped + |Slow(h)|,
                     dequeued := h.dequeued + [h.run.e])
    ensures g == Next(h, Step.FinishBroadcast)
  {
    hide Offer;
    hide AnyClosed;
    hide Slow;
    assert g.chans == ForClients(h, ch => Offer(ch, h.run.e));
  }

  lemma SweptAll(h: Hub, g: Hub)
    requires h.stop.DoneClosed? && !AnyClosed(h)
    requires g.chans == Partly(h.chans, h.clients, {}, Close)
    requires g == h.(stop := Swept, clients := {}, chans := g.chans)
    ensures g == Next(h, Step.Sweep)
  {
    hide Close;
    hide AnyClosed;
    assert g.chans == ForClients(h, ch => Close(ch));
  }

  class SSEHub {
    var clients: set<nat>
    var chans: seq<Chan>
    var broadcast: seq<Event>
    var dropped: nat
    var run: Runner
    var stop: Stopper

    // The history of Send.
    ghost var accepted: seq<Event>
    ghost var dequeued: seq<Event>
    ghost var refused: nat

    ghost function View(): Hub
      reads this
    {
      Hub(clients, chans, broadcast, run, stop, dropped, false, accepted, dequeued, refused)
    }

    constructor ()
      ensures View() == Start()
    {
      clients, chans, broadcast, dropped, run, stop := {}, [], [], 0, Idle, Running;
      accepted, dequeued, refused := [], [], 0;
    }

    // Run receives a new client from the register channel ...
    method TakeRegister()
      requires Inv(View()) && Enabled(View(), Step.TakeRegister)
      modifies this
      ensures Inv(View()) && View() == Next(old(View()), Step.TakeRegister)
    {
      StepKeeps(View(), Step.TakeRegister);
      run := Registering(|chans|);
      chans := chans + [Chan([], false, [], [], 0)];
    }

    // ... and adds it to the map.
    method FinishRegister()
      requires Inv(View()) && Enabled(View(), Step.FinishRegister)
      modifies this
      ensures Inv(View()) && View() == Next(old(View()), Step.FinishRegister)
    {
      StepKeeps(View(), Step.FinishRegister);
      clients := clients + {run.c};
      run := Idle;
    }

    method TakeUnregister(c: nat)
      requires Inv(View()) && Enabled(View(), Step.TakeUnregister(c))
      modifies this
      ensures Inv(View()) && View() == Next(old(View()), Step.TakeUnregister(c))
    {
      StepKeeps(View(), Step.TakeUnregister(c));
      run := Unregistering(c);
    }

    method FinishUnregister()
      requires Inv(View()) && Enabled(View(), Step.FinishUnregister)
      modifies this
      ensures Inv(View()) && View() == Next(old(View()), Step.FinishUnregister)
    {
      hide Inv;
      ghost var h := View();
      StepKeeps(h, Step.FinishUnregister);
      ClientsOpen(h);
      var c := run.c;
      if c in clients {
        clients := clients - {c};
        CloseChannel(c);
      }
      run := Idle;
    }

    // close(client.ch)
    method CloseChannel(c: nat)
      requires c < |chans| && !chans[c].closed
      modifies this`chans
      ensures chans == old(chans)[c := Close(old(chans)[c])]
    {
      chans := chans[c := chans[c].(closed := true)];
    }

    method TakeEvent()
      requires Inv(View()) && Enabled(View(), Step.TakeEvent)
      modifies this
      ensures Inv(View()) && View() == Next(old(View()), Step.TakeEvent)
    {
      StepKeeps(View(), Step.TakeEvent);
      run := Broadcasting(broadcast[0]);
      broadcast := broadcast[1..];
    }

    // The broadcast loop, over the clients in any order.
    method FinishBroadcast()
      requires Inv(View()) && Enabled(View(), Step.FinishBroadcast)
      modifies this
      ensures Inv(View()) && View() == Next(old(View()), Step.FinishBroadcast)
    {
      hide Inv;
      hide Next;
      hide Slow;
      hide AnyClosed;
      hide Partly;
      ghost var h := View();
      StepKeeps(h, Step.FinishBroadcast);
      NoneClosed(h);
      ClientsOpen(h);
      OfferAll(run.e);
      dequeued := dequeued + [run.e];
      run := Idle;
      BroadcastAll(h, View());
    }

    method OfferAll(e: Event)
      requires forall c :: c in clients ==> c < |chans| && !chans[c].closed
      modifies this`chans, this`dropped
      ensures chans == Partly(old(chans), clients, {}, ch => Offer(ch, e))
      ensures dropped == old(dropped) + |Slow(old(View()))|
    {
      hide Slow;
      hide Offer;
      hide Partly;
      hide PassedOver;
      ghost var h := View();
      ghost var f := ch => Offer(ch, e);
      PassedEnds(h);
      PartlyNone(h.chans, clients, f);
      var todo := clients;
      while todo != {}
        invariant todo <= clients && chans == Partly(h.chans, clients, todo, f)
        invariant dropped == h.dropped + PassedOver(h, todo)
      {
        var c :| c in todo;
        PartlyNext(h.chans, clients, todo, c, f);
        PassedNext(h, todo, c);
        var full := OfferOne(c, e);
        todo := todo - {c};
      }
    }

    // client.ch <- event, unless the client is too slow.
    method OfferOne(c: nat, e: Event) returns (full: bool)
      requires c < |chans| && !chans[c].closed
      modifies this`chans, this`dropped
      ensures chans == old(chans)[c := Offer(old(chans)[c], e)]
      ensures full <==> |old(chans)[c].buffer| >= CLIENT_BUFFER
      ensures dropped == old(dropped) + if full then 1 else 0
    {
      var ch := chans[c];
      full := |ch.buffer| >= CLIENT_BUFFER;
      if full {
        chans := chans[c := ch.(missed := ch.missed + 1, offered := ch.offered + [e])];
        dropped := dropped + 1;
      } else {
        chans := chans[c := ch.(buffer := ch.buffer + [e], offered := ch.offered + [e])];
      }
    }

    method Exit()
      requires Inv(View()) && Enabled(View(), Step.Exit)
      modifies this
      ensures Inv(View()) && View() == Next(old(View()), Step.Exit)
    {
      StepKeeps(View(), Step.Exit);
      run := Exited;
    }

    // Stop closes done ...
    method CloseDone()
      requires Inv(View()) && Enabled(View(), Step.CloseDone)
      modifies this
      ensures Inv(View()) && View() == Next(old(View()), Step.CloseDone)
    {
      StepKeeps(View(), Step.CloseDone);
      stop := DoneClosed;
    }

    // ... and then, under the lock, closes every channel in the map and empties it.
    method Sweep()
      requires Inv(View()) && Enabled(View(), Step.Sweep)
      modifies this
      ensures Inv(View()) && View() == Next(old(View()), Step.Sweep)
    {
      hide Inv;
      hide Next;
      hide AnyClosed;
      hide Partly;
      ghost var h := View();
      StepKeeps(h, Step.Sweep);
      NoneClosed(h);
      ClientsOpen(h);
      CloseAll();
      stop := Swept;
      SweptAll(h, View());
    }

    method CloseAll()
      requires forall c :: c in clients ==> c < |chans| && !chans[c].closed
      modifies this`chans, this`clients
      ensures clients == {} && chans == Partly(old(chans), old(clients), {}, Close)
    {
      hide Close;
      ghost var was, all := chans, clients;
      PartlyNone(was, all, Close);
      hide Partly;
      while clients != {}
        invariant clients <= all && chans == Partly(was, all, clients, Close)
        decreases clients
      {
        var c :| c in clients;
        PartlyNext(was, all, clients, c, Close);
        CloseChannel(c);
        clients := clients - {c};
      }
    }

    method Send(e: Event)
      requires Inv(View())
      modifies this
      ensures Inv(View()) && View() == Next(old(View()), Step.Send(e))
    {
      StepKeeps(View(), Step.Send(e));
      if |broadcast| < BROADCAST_BUFFER {
        broadcast := broadcast + [e];
        accepted := accepted + [e];
      } else {
        dropped := dropped + 1;
        refused := refused + 1;
      }
    }

    // A handler takes the next event from its channel.
    method Receive(c: nat) returns (e: Event)
      requires Inv(View()) && Enabled(View(), Step.Receive(c))
      modifies this
      ensures Inv(View()) && View() == Next(old(View()), Step.Receive(c))
      ensures e == old(chans)[c].buffer[0]
    {
      StepKeeps(View(), Step.Receive(c));
      e := chans[c].buffer[0];
      chans := chans[c := chans[c].(buffer := chans[c].buffer[1..], taken := chans[c].taken + [e])];
    }
  }
}
