// internal/middleware/circuitbreaker.go: the breaker, whose calls may interleave in any
// way because a result is recorded long after its request was admitted.
module CircuitBreaker {
  datatype State = Closed | Open | HalfOpen

  const SUCCESS_MIN := 3

  datatype Breaker = Breaker(failures: nat, successes: nat, state: State, lastFailure: int)

  // One call: a request asking to pass, or a recorded result, with the time it happened.
  datatype Event = Allow(now: int) | Failure(now: int) | Success

  datatype Settings = Settings(threshold: int, window: int)

  function Step(s: Settings, b: Breaker, e: Event): Breaker {
    match e
    case Allow(now) =>
      if b.state.Open? && now - b.lastFailure > s.window then b.(state := HalfOpen, successes := 0) else b
    case Failure(now) =>
      var c := b.(failures := b.failures + 1, lastFailure := now);
      if b.state.HalfOpen? || c.failures >= s.threshold then c.(state := Open) else c
    case Success =>
      if b.state.Closed? then b.(failures := 0)
      else if b.state.HalfOpen? then
        if b.successes + 1 >= SUCCESS_MIN then Breaker(0, 0, Closed, b.lastFailure)
        else b.(successes := b.successes + 1)
      else b
  }

  // Whether a request asking to pass at `now` is admitted.
  predicate Admits(s: Settings, b: Breaker, now: int) {
    !b.state.Open? || now - b.lastFailure > s.window
  }

  function Run(s: Settings, h: seq<Event>): Breaker {
    if h == [] then Breaker(0, 0, Closed, 0) else Step(s, Run(s, h[..|h| - 1]), h[|h| - 1])
  }

  // Failures recorded since the last recorded success.
  function FailuresSinceSuccess(h: seq<Event>): nat {
    if h == [] then 0
    else
      match h[|h| - 1]
      case Allow(_) => FailuresSinceSuccess(h[..|h| - 1])
      case Failure(_) => 1 + FailuresSinceSuccess(h[..|h| - 1])
      case Success => 0
  }

  // The time of the last recorded failure, if any.
  predicate LastFailureAt(h: seq<Event>, t: int) {
    h != [] && (if h[|h| - 1].Failure? then h[|h| - 1].now == t else LastFailureAt(h[..|h| - 1], t))
  }

  // The breaker is closed exactly while it has counted fewer failures than the threshold,
  // and while closed it counts the failures since the last success.
  lemma {:induction false} ClosedExactlyWhen(s: Settings, h: seq<Event>)
    requires s.threshold >= 1
    ensures var b := Run(s, h);
            && (b.state.Closed? <==> b.failures < s.threshold)
            && (b.state.Closed? ==> b.failures == FailuresSinceSuccess(h))
            && (!b.state.Closed? ==> LastFailureAt(h, b.lastFailure))
            && (b.state.HalfOpen? ==> b.successes < SUCCESS_MIN)
  {
    if h == [] {
    } else {
      ClosedExactlyWhen(s, h[..|h| - 1]);
    }
  }

  // An open breaker admits nothing until strictly more than the window has passed since
  // the last recorded failure, and the request it then admits opens it half way.
  lemma OpenHoldsForWindow(s: Settings, h: seq<Event>, now: int, t: int)
    requires s.threshold >= 1 && Run(s, h).state.Open? && LastFailureAt(h, t)
    ensures Admits(s, Run(s, h), now) <==> now - t > s.window
    ensures Run(s, h + [Allow(now)]).state == if now - t > s.window then HalfOpen else Open
  {
    ClosedExactlyWhen(s, h);
    LastFailureUnique(h, t, Run(s, h).lastFailure);
    assert (h + [Allow(now)])[..|h|] == h;
  }

  lemma {:induction false} LastFailureUnique(h: seq<Event>, t: int, u: int)
    requires LastFailureAt(h, t) && LastFailureAt(h, u)
    ensures t == u
  {
    if !h[|h| - 1].Failure? {
      LastFailureUnique(h[..|h| - 1], t, u);
    }
  }

  // A request is refused exactly if the breaker is open and no more than the window has passed
  // since the last recorded failure.
  lemma RefusedExactlyWhen(s: Settings, h: seq<Event>, now: int)
    requires s.threshold >= 1
    ensures !Admits(s, Run(s, h), now) <==>
              Run(s, h).state.Open? && exists t :: LastFailureAt(h, t) && now - t <= s.window
  {
    ClosedExactlyWhen(s, h);
    if Run(s, h).state.Open? {
      var u := Run(s, h).lastFailure;
      OpenHoldsForWindow(s, h, now, u);
      if t :| LastFailureAt(h, t) && now - t <= s.window {
        LastFailureUnique(h, t, u);
      }
      assert LastFailureAt(h, u);
    }
    hide LastFailureAt;
  }

  ghost predicate NeverStruck(s: Settings, h: seq<Event>) {
    forall k :: 0 <= k <= |h| ==> FailuresSinceSuccess(h[..k]) < s.threshold
  }

  // Without as many failures as the threshold between two successes nobody is ever refused ...
  lemma {:induction false} NeverRefused(s: Settings, h: seq<Event>, now: int)
    requires s.threshold >= 1 && NeverStruck(s, h)
    ensures Run(s, h).state.Closed? && Admits(s, Run(s, h), now)
  {
    if h == [] {
    } else {
      var before := h[..|h| - 1];
      assert forall k :: 0 <= k <= |before| ==> before[..k] == h[..k];
      assert h[..|h|] == h;
      NeverRefused(s, before, now);
      ClosedExactlyWhen(s, before);
    }
  }

  // ... and the first time there are, everybody is, until the window has passed.
  lemma StruckRefuses(s: Settings, h: seq<Event>, t: int, now: int)
    requires s.threshold >= 1 && NeverStruck(s, h) && FailuresSinceSuccess(h + [Failure(t)]) >= s.threshold
    ensures Admits(s, Run(s, h + [Failure(t)]), now) <==> now - t > s.window
  {
    NeverRefused(s, h, now);
    ClosedExactlyWhen(s, h);
    assert (h + [Failure(t)])[..|h|] == h;
  }

  function Successes(h: seq<Event>): nat {
    if h == [] then 0 else Successes(h[..|h| - 1]) + if h[|h| - 1].Success? then 1 else 0
  }

  // h[i] is the request that opened the breaker half way, more than the window after the
  // last failure, and no failure was recorded since.
  ghost predicate EnteredAt(s: Settings, h: seq<Event>, i: nat) {
    && i < |h| && h[i].Allow?
    && Run(s, h[..i]).state.Open?
    && (exists t :: LastFailureAt(h[..i], t) && h[i].now - t > s.window)
    && (forall j :: i < j < |h| ==> !h[j].Failure?)
  }

  // One more event that is no failure leaves the entry where it was.
  lemma StaysEntered(s: Settings, h: seq<Event>, e: Event, i: nat)
    requires EnteredAt(s, h, i) && !e.Failure?
    ensures EnteredAt(s, h + [e], i)
    ensures Successes((h + [e])[i + 1..]) == Successes(h[i + 1..]) + if e.Success? then 1 else 0
  {
    var after := h + [e];
    assert after[..i] == h[..i] && after[i] == h[i];
    assert after[i + 1..] == h[i + 1..] + [e];
    assert (h[i + 1..] + [e])[..|h[i + 1..]|] == h[i + 1..];
    hide Run;
  }

  // While half open: entered at some request, no failure since, and exactly `successes`
  // successes since.
  lemma {:induction false} HalfOpenSince(s: Settings, h: seq<Event>)
    requires s.threshold >= 1 && Run(s, h).state.HalfOpen?
    ensures exists i :: EnteredAt(s, h, i) && Successes(h[i + 1..]) == Run(s, h).successes
  {
    var before, e := h[..|h| - 1], h[|h| - 1];
    assert h == before + [e];
    var b := Run(s, before);
    if b.state.HalfOpen? {
      HalfOpenSince(s, before);
      hide EnteredAt;
      hide Successes;
      var i: nat :| EnteredAt(s, before, i) && Successes(before[i + 1..]) == b.successes;
      StaysEntered(s, before, e, i);
    } else {
      ClosedExactlyWhen(s, before);
      var i := |before|;
      assert h[i + 1..] == [];
      assert EnteredAt(s, h, i);
    }
  }

  // The breaker closes only by the third success after it opened half way, with no
  // failure in between.
  lemma ClosesOnlyAfterThreeSuccesses(s: Settings, h: seq<Event>, e: Event)
    requires s.threshold >= 1
    ensures !Run(s, h).state.Closed? && Run(s, h + [e]).state.Closed? <==>
              && e.Success? && Run(s, h).state.HalfOpen?
              && exists i :: EnteredAt(s, h, i) && Successes(h[i + 1..]) == 2
  {
    assert (h + [e])[..|h|] == h;
    ClosedExactlyWhen(s, h);
    if Run(s, h).state.HalfOpen? {
      HalfOpenSince(s, h);
      if i: nat :| EnteredAt(s, h, i) && Successes(h[i + 1..]) == SUCCESS_MIN - 1 {
        EnteredCounts(s, h, i);
      }
    }
  }

  // Wherever half-open began, the successes since then are the ones counted.
  lemma {:induction false} EnteredCounts(s: Settings, h: seq<Event>, i: nat)
    requires s.threshold >= 1 && EnteredAt(s, h, i)
    ensures Successes(h[i + 1..]) < SUCCESS_MIN ==>
              Run(s, h).state.HalfOpen? && Run(s, h).successes == Successes(h[i + 1..])
    decreases |h|
  {
    if |h| == i + 1 {
      assert h[..|h| - 1] == h[..i];
      ClosedExactlyWhen(s, h[..i]);
      var t :| LastFailureAt(h[..i], t) && h[i].now - t > s.window;
      LastFailureUnique(h[..i], t, Run(s, h[..i]).lastFailure);
    } else {
      var before, e := h[..|h| - 1], h[|h| - 1];
      assert before[..i] == h[..i] && before[i] == h[i];
      assert EnteredAt(s, before, i);
      EnteredCounts(s, before, i);
      assert h[i + 1..] == before[i + 1..] + [e];
      assert (before[i + 1..] + [e])[..|before[i + 1..]|] == before[i + 1..];
    }
  }

  // The breaker object. Each method is one critical section.
  class CircuitBreaker {
    var failures: nat
    var successes: nat
    var state: State
    var lastFailure: int
    const settings: Settings

    function View(): Breaker
      reads this
    {
      Breaker(failures, successes, state, lastFailure)
    }

    constructor (threshold: int, window: int)
      ensures View() == Run(settings, []) && settings == Settings(threshold, window)
    {
      failures, successes, state, lastFailure := 0, 0, Closed, 0;
      settings := Settings(threshold, window);
    }

    method Allow(now: int) returns (ok: bool)
      modifies this
      ensures ok == Admits(settings, old(View()), now)
      ensures View() == Step(settings, old(View()), Event.Allow(now))
    {
      match state
      case Closed =>
        return true;
      case Open =>
        if now - lastFailure > settings.window {
          state := HalfOpen;
          successes := 0;
          return true;
        }
        return false;
      case HalfOpen =>
        return true;
    }

    method RecordFailure(now: int)
      modifies this
      ensures View() == Step(settings, old(View()), Failure(now))
    {
      failures := failures + 1;
      lastFailure := now;
      if state == HalfOpen {
        state := Open;
        return;
      }
      if failures >= settings.threshold {
        state := Open;
      }
    }

    method RecordSuccess()
      modifies this
      ensures View() == Step(settings, old(View()), Success)
    {
      if state == Closed {
        if failures > 0 {
          failures := 0;
        }
        return;
      }
      if state == HalfOpen {
        successes := successes + 1;
        if successes >= SUCCESS_MIN {
          state := Closed;
          failures := 0;
          successes := 0;
        }
      }
    }
  }
}
