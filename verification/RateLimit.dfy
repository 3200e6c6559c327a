// internal/middleware/ratelimit.go: token buckets over real time and real tokens.
module RateLimit {
  import opened Options

  datatype Bucket = Bucket(tokens: real, lastRefill: real)

  // The settings of a limiter: bucket size and refill rate per second.
  datatype Limits = Limits(maxSize: real, refillRate: real)

  function Min(a: real, b: real): real {
    if a > b then b else a
  }

  function Plus(a: real): (p: real)
    ensures p >= 0.0 && p >= a
  {
    if a > 0.0 then a else 0.0
  }

  function Refill(l: Limits, b: Bucket, now: real): Bucket {
    Bucket(Min(b.tokens + (now - b.lastRefill) * l.refillRate, l.maxSize), now)
  }

  // The most a stretch of time can bring in.
  function Gain(l: Limits, elapsed: real): real {
    Plus(l.refillRate) * elapsed
  }

  lemma GainAdds(l: Limits, a: real, b: real, c: real)
    ensures Gain(l, a - b) + Gain(l, b - c) == Gain(l, a - c)
    ensures Gain(l, a - a) == 0.0
  {
  }

  datatype Verdict = Verdict(allowed: bool, remaining: real)

  // One call for a key: its bucket afterwards and the verdict.
  function Call(l: Limits, b: Option<Bucket>, now: real): (Bucket, Verdict) {
    match b
    case None => (Bucket(l.maxSize, now), Verdict(true, l.maxSize))
    case Some(bucket) =>
      var r := Refill(l, bucket, now);
      if r.tokens >= 1.0 then (Bucket(r.tokens - 1.0, now), Verdict(true, r.tokens - 1.0))
      else (r, Verdict(false, 0.0))
  }

  // The bucket and the verdicts after calls at the given times.
  function Calls(l: Limits, times: seq<real>): (Option<Bucket>, seq<Verdict>) {
    if times == [] then (None, [])
    else
      var (b, vs) := Calls(l, times[..|times| - 1]);
      var (b', v) := Call(l, b, times[|times| - 1]);
      (Some(b'), vs + [v])
  }

  ghost predicate Ordered(times: seq<real>) {
    forall i, j :: 0 <= i < j < |times| ==> times[i] <= times[j]
  }

  function Admitted(vs: seq<Verdict>): nat {
    if vs == [] then 0 else Admitted(vs[..|vs| - 1]) + if vs[|vs| - 1].allowed then 1 else 0
  }

  lemma {:induction false} CallsLength(l: Limits, times: seq<real>)
    ensures |Calls(l, times).1| == |times| && (Calls(l, times).0.Some? <==> times != [])
    ensures times != [] ==> Calls(l, times).0.value.lastRefill == times[|times| - 1]
    ensures times != [] ==> Calls(l, times).0.value.tokens <= l.maxSize
  {
    if times == [] {
    } else {
      CallsLength(l, times[..|times| - 1]);
    }
  }

  // What one call costs: an admission or a token, against what time brings in.
  lemma CallPays(l: Limits, b: Bucket, now: real)
    requires now >= b.lastRefill
    ensures var (b', v) := Call(l, Some(b), now);
            && b'.lastRefill == now
            && Plus(b'.tokens) + (if v.allowed then 1.0 else 0.0)
               <= Plus(b.tokens) + Gain(l, now - b.lastRefill)
            && Plus(b'.tokens) + (if v.allowed then 1.0 else 0.0) <= Plus(l.maxSize)
  {
    var e := now - b.lastRefill;
    assert e * l.refillRate <= Gain(l, e) && Gain(l, e) >= 0.0 by {
      assert Plus(l.refillRate) * e >= 0.0;
    }
    assert Refill(l, b, now).tokens <= b.tokens + e * l.refillRate;
  }

  // Up to any moment a key is admitted at most 1 + maxSize + refillRate * elapsed times:
  // the call that creates the bucket is not charged.
  lemma {:induction false} AdmissionBound(l: Limits, times: seq<real>)
    requires Ordered(times) && times != []
    ensures var (b, vs) := Calls(l, times);
            && b.Some?
            && Admitted(vs) as real + Plus(b.value.tokens)
               <= 1.0 + Plus(l.maxSize) + Gain(l, times[|times| - 1] - times[0])
  {
    hide Gain;
    var before, now := times[..|times| - 1], times[|times| - 1];
    CallsLength(l, times);
    GainAdds(l, now, now, now);
    var (b, vs) := Calls(l, before);
    var (b', v) := Call(l, b, now);
    assert (vs + [v])[..|vs|] == vs;
    if before == [] {
      assert Admitted(vs + [v]) == 1;
    } else {
      AdmissionBound(l, before);
      CallsLength(l, before);
      CallPays(l, b.value, now);
      GainAdds(l, now, before[|before| - 1], times[0]);
    }
  }

  lemma Apart(k: real, a: real, b: real, c: real)
    ensures k * (a - b) + k * (b - c) == k * (a - c)
  {
  }

  // In any later window the bound is maxSize + refillRate * length, with nothing for free.
  lemma {:induction false} WindowBound(l: Limits, times: seq<real>, first: nat)
    requires Ordered(times) && 0 < first < |times|
    ensures var (b, vs) := Calls(l, times);
            && b.Some? && |vs| == |times|
            && Admitted(vs[first..]) as real + Plus(b.value.tokens)
               <= Plus(l.maxSize) + Gain(l, times[|times| - 1] - times[first])
  {
    hide Gain;
    var before, now := times[..|times| - 1], times[|times| - 1];
    CallsLength(l, times);
    CallsLength(l, before);
    GainAdds(l, now, now, now);
    var (b, vs) := Calls(l, before);
    var (b', v) := Call(l, b, now);
    CallPays(l, b.value, now);
    if first == |before| {
      assert (vs + [v])[first..] == [v];
      assert Admitted([v]) == if v.allowed then 1 else 0;
    } else {
      WindowBound(l, before, first);
      assert (vs + [v])[first..] == vs[first..] + [v];
      assert (vs[first..] + [v])[..|vs[first..]|] == vs[first..];
      GainAdds(l, now, before[|before| - 1], times[first]);
    }
  }

  // The exact verdicts, from the history alone.

  // How many of the calls m to n - 1 were charged a token: those admitted, but for call 0,
  // which creates the bucket.
  function Charged(vs: seq<Verdict>, m: nat, n: nat): nat
    requires m <= n <= |vs|
  {
    if m == n then 0 else Charged(vs, m, n - 1) + if n > 1 && vs[n - 1].allowed then 1 else 0
  }

  // What time brings in.
  function Brought(l: Limits, from: real, to: real): real {
    l.refillRate * (to - from)
  }

  lemma BroughtAdds(l: Limits, a: real, b: real, c: real)
    ensures Brought(l, a, b) + Brought(l, b, c) == Brought(l, a, c) && Brought(l, a, a) == 0.0
  {
    Apart(l.refillRate, c, b, a);
  }

  lemma BroughtEnough(l: Limits, from: real, to: real, x: real)
    requires l.refillRate > 0.0 && to - from >= x / l.refillRate
    ensures Brought(l, from, to) >= x
  {
    assert x / l.refillRate * l.refillRate == x;
    AtLeast(l.refillRate, to - from, x / l.refillRate);
  }

  lemma AtLeast(k: real, a: real, b: real)
    requires k >= 0.0 && a >= b
    ensures k * a >= k * b
  {
    assert k * (a - b) >= 0.0;
  }

  lemma BroughtPositive(l: Limits, from: real, to: real)
    requires l.refillRate >= 0.0 && from <= to
    ensures Brought(l, from, to) >= 0.0
  {
    AtLeast(l.refillRate, to - from, 0.0);
  }

  lemma RefillBrings(l: Limits, b: Bucket, now: real)
    ensures Refill(l, b, now) == Bucket(Min(b.tokens + Brought(l, b.lastRefill, now), l.maxSize), now)
  {
    Commuted(l.refillRate, now - b.lastRefill);
    RefillBy(l, b, now, Brought(l, b.lastRefill, now));
    hide Brought;
  }

  lemma RefillBy(l: Limits, b: Bucket, now: real, x: real)
    requires x == (now - b.lastRefill) * l.refillRate
    ensures Refill(l, b, now) == Bucket(Min(b.tokens + x, l.maxSize), now)
  {
  }

  lemma Commuted(a: real, b: real)
    ensures a * b == b * a
  {
  }

  // What is left at call n if the bucket was full at call m.
  function LeftSince(l: Limits, times: seq<real>, vs: seq<Verdict>, m: nat, n: nat): real
    requires m <= n < |times| && n <= |vs|
  {
    l.maxSize + Brought(l, times[m], times[n]) - Charged(vs, m, n) as real
  }

  // x is the least of these over the calls so far.
  ghost predicate LeastLeft(l: Limits, times: seq<real>, vs: seq<Verdict>, n: nat, x: real)
    requires n < |times| && n <= |vs|
  {
    && (forall m :: 0 <= m <= n ==> x <= LeftSince(l, times, vs, m, n))
    && (exists m :: 0 <= m <= n && x == LeftSince(l, times, vs, m, n))
  }

  // What time and the charge for call n make of what call n finds.
  function Onward(l: Limits, times: seq<real>, vs: seq<Verdict>, n: nat): real
    requires n + 1 < |times| && n < |vs|
  {
    Brought(l, times[n], times[n + 1]) - if n > 0 && vs[n].allowed then 1.0 else 0.0
  }

  lemma LeftNext(l: Limits, times: seq<real>, vs: seq<Verdict>, m: nat, n: nat)
    requires m <= n && n + 1 < |times| && n < |vs|
    ensures LeftSince(l, times, vs, m, n + 1) == LeftSince(l, times, vs, m, n) + Onward(l, times, vs, n)
  {
    hide Brought;
    BroughtAdds(l, times[m], times[n], times[n + 1]);
    assert Charged(vs, m, n + 1) == Charged(vs, m, n) + if n > 0 && vs[n].allowed then 1 else 0;
  }

  lemma LeastNext(l: Limits, times: seq<real>, vs: seq<Verdict>, n: nat, x: real)
    requires n + 1 < |times| && n < |vs| && LeastLeft(l, times, vs, n, x)
    ensures LeastLeft(l, times, vs, n + 1, Min(x + Onward(l, times, vs, n), l.maxSize))
  {
    hide Brought;
    var y := x + Onward(l, times, vs, n);
    forall m | 0 <= m <= n
      ensures LeftSince(l, times, vs, m, n + 1) == LeftSince(l, times, vs, m, n) + Onward(l, times, vs, n)
    {
      LeftNext(l, times, vs, m, n);
    }
    BroughtAdds(l, times[n + 1], times[n + 1], times[n + 1]);
    assert LeftSince(l, times, vs, n + 1, n + 1) == l.maxSize;
    var k :| 0 <= k <= n && x == LeftSince(l, times, vs, k, n);
    hide LeftSince;
    hide Onward;
    var z, o := Min(y, l.maxSize), n + 1;
    forall j | 0 <= j <= o ensures z <= LeftSince(l, times, vs, j, o) {
      if j <= n {
        assert x <= LeftSince(l, times, vs, j, n);
      }
    }
    assert z == LeftSince(l, times, vs, if y > l.maxSize then o else k, o);
  }

  lemma {:induction false} ChargedSame(vs: seq<Verdict>, ws: seq<Verdict>, m: nat, n: nat)
    requires m <= n <= |ws| <= |vs| && vs[..|ws|] == ws
    ensures Charged(vs, m, n) == Charged(ws, m, n)
  {
    if m == n {
    } else {
      assert vs[n - 1] == vs[..|ws|][n - 1];
      ChargedSame(vs, ws, m, n - 1);
    }
  }

  lemma LeastPrefix(l: Limits, before: seq<real>, now: real, vs: seq<Verdict>, v: Verdict, n: nat, x: real)
    requires n < |before| && n <= |vs| && LeastLeft(l, before, vs, n, x)
    ensures LeastLeft(l, before + [now], vs + [v], n, x)
  {
    hide Brought;
    assert forall m :: 0 <= m <= n ==> (before + [now])[m] == before[m];
    assert (vs + [v])[..|vs|] == vs;
    forall m | 0 <= m <= n ensures LeftSince(l, before + [now], vs + [v], m, n) == LeftSince(l, before, vs, m, n) {
      ChargedSame(vs + [v], vs, m, n);
    }
    hide LeftSince;
  }

  // What the last call finds in the bucket.
  function Held(l: Limits, times: seq<real>): real
    requires times != []
  {
    var b := Calls(l, times[..|times| - 1]).0;
    if b.None? then l.maxSize else Refill(l, b.value, times[|times| - 1]).tokens
  }

  // What the last call does with it.
  lemma LastCall(l: Limits, times: seq<real>)
    requires times != []
    ensures var n := |times| - 1;
            var (b, vs) := Calls(l, times);
            && |vs| == |times| && (n == 0 ==> vs[n] == Verdict(true, l.maxSize) && Held(l, times) == l.maxSize)
            && (n > 0 ==> (vs[n].allowed <==> Held(l, times) >= 1.0))
            && (n > 0 ==> vs[n].remaining == if vs[n].allowed then Held(l, times) - 1.0 else 0.0)
            && b == Some(Bucket(Held(l, times) - (if n > 0 && vs[n].allowed then 1.0 else 0.0), times[n]))
  {
    hide Refill;
    hide Brought;
    hide Min;
    hide Calls;
    var n := |times| - 1;
    LastStep(l, times);
    var b := Calls(l, times[..n]).0;
    if b.Some? {
      RefillBrings(l, b.value, times[n]);
    }
  }

  lemma LastStep(l: Limits, times: seq<real>)
    requires times != []
    ensures var n := |times| - 1;
            var (b, vs) := Calls(l, times[..n]);
            var (b', v) := Call(l, b, times[n]);
            && Calls(l, times) == (Some(b'), vs + [v])
            && |vs| == n && (b.Some? <==> n > 0)
  {
    hide Call;
    CallsLength(l, times[..|times| - 1]);
  }

  lemma HeldNext(l: Limits, times: seq<real>)
    requires |times| > 1
    ensures var n := |times| - 2;
            var vs := Calls(l, times).1;
            |vs| == |times| && Held(l, times) == Min(Held(l, times[..n + 1]) + Onward(l, times, vs, n), l.maxSize)
  {
    hide Brought;
    hide Refill;
    hide Call;
    var before := times[..|times| - 1];
    LastCall(l, before);
    LastCall(l, times);
    assert Calls(l, times).1[..|before|] == Calls(l, before).1;
    RefillBrings(l, Calls(l, before).0.value, times[|times| - 1]);
  }

  // A bucket holds the least of what the calls before it leave.
  lemma {:induction false} HeldIsLeast(l: Limits, times: seq<real>)
    requires times != []
    ensures |Calls(l, times).1| == |times|
    ensures LeastLeft(l, times, Calls(l, times).1, |times| - 1, Held(l, times))
  {
    hide Brought;
    hide Onward;
    hide Refill;
    hide Call;
    var n := |times| - 1;
    var before := times[..n];
    LastCall(l, times);
    var vs := Calls(l, times).1;
    if n == 0 {
      BroughtAdds(l, times[0], times[0], times[0]);
      assert LeftSince(l, times, vs, 0, 0) == l.maxSize;
    } else {
      HeldIsLeast(l, before);
      HeldNext(l, times);
      var v := vs[n];
      assert vs == Calls(l, before).1 + [v];
      assert times == before + [times[n]];
      hide Held;
      hide Calls;
      LeastPrefix(l, before, times[n], Calls(l, before).1, v, n - 1, Held(l, before));
      LeastNext(l, times, vs, n - 1, Held(l, before));
    }
  }

  lemma {:induction false} CallsPrefix(l: Limits, times: seq<real>, n: nat)
    requires n <= |times|
    ensures |Calls(l, times).1| == |times| && Calls(l, times[..n]).1 == Calls(l, times).1[..n]
  {
    CallsLength(l, times);
    if n == |times| {
      assert times[..n] == times;
    } else {
      CallsPrefix(l, times[..|times| - 1], n);
      assert times[..|times| - 1][..n] == times[..n];
    }
  }

  // A later call is rejected exactly if, reckoned from some call up to it at which the bucket
  // might have been full, less than a token is left.
  lemma RejectedExactlyWhen(l: Limits, times: seq<real>, n: nat)
    requires 0 < n < |times|
    ensures var vs := Calls(l, times).1;
            && |vs| == |times| && vs[0] == Verdict(true, l.maxSize)
            && (!vs[n].allowed <==> exists m :: 0 <= m <= n && LeftSince(l, times, vs, m, n) < 1.0)
            && (vs[n].allowed ==> LeastLeft(l, times, vs, n, vs[n].remaining + 1.0))
  {
    hide Brought;
    hide Calls;
    hide Held;
    var now := times[..n + 1];
    CallsPrefix(l, times, n + 1);
    CallsPrefix(l, times, 1);
    LastCall(l, times[..1]);
    LastCall(l, now);
    HeldIsLeast(l, now);
    var vs, ws := Calls(l, times).1, Calls(l, now).1;
    forall m | 0 <= m <= n ensures LeftSince(l, times, vs, m, n) == LeftSince(l, now, ws, m, n) {
      ChargedSame(vs, ws, m, n);
    }
    hide LeftSince;
  }

  lemma {:induction false} NeverNegative(l: Limits, times: seq<real>)
    requires times != [] && Ordered(times) && l.maxSize >= 1.0 && l.refillRate >= 0.0
    ensures Calls(l, times).0.Some? && Calls(l, times).0.value.tokens >= 0.0
  {
    hide Brought;
    hide Refill;
    hide Calls;
    var n := |times| - 1;
    LastCall(l, times);
    if n > 0 {
      NeverNegative(l, times[..n]);
      Refilled(l, times);
      BroughtPositive(l, times[n - 1], times[n]);
    }
  }

  // A later call finds what the one before left, and what time has brought in since.
  lemma Refilled(l: Limits, times: seq<real>)
    requires |times| > 1
    ensures var n := |times| - 1;
            var b := Calls(l, times[..n]).0;
            b.Some? && Held(l, times) == Min(b.value.tokens + Brought(l, times[n - 1], times[n]), l.maxSize)
  {
    hide Brought;
    hide Refill;
    hide Calls;
    var n := |times| - 1;
    CallsLength(l, times[..n]);
    RefillBrings(l, Calls(l, times[..n]).0.value, times[n]);
  }

  // Time brings tokens back: the time of one token admits a call, and the time of all of them
  // gives the whole burst back.
  lemma RestAdmits(l: Limits, times: seq<real>)
    requires |times| > 1 && Ordered(times) && l.maxSize >= 1.0 && l.refillRate > 0.0
    ensures var n := |times| - 1;
            var vs := Calls(l, times).1;
            && |vs| == |times|
            && (times[n] - times[n - 1] >= 1.0 / l.refillRate ==> vs[n].allowed)
            && (times[n] - times[n - 1] >= l.maxSize / l.refillRate ==> vs[n] == Verdict(true, l.maxSize - 1.0))
  {
    hide Brought;
    hide Calls;
    hide Held;
    var n := |times| - 1;
    LastCall(l, times);
    NeverNegative(l, times[..n]);
    Refilled(l, times);
    if times[n] - times[n - 1] >= 1.0 / l.refillRate {
      BroughtEnough(l, times[n - 1], times[n], 1.0);
    }
    if times[n] - times[n - 1] >= l.maxSize / l.refillRate {
      BroughtEnough(l, times[n - 1], times[n], l.maxSize);
    }
  }

  // Rejected calls leave no trace.

  // Refilling in two steps is refilling in one, as long as the bucket is not overfull.
  lemma RefillTwice(l: Limits, b: Bucket, s: real, t: real)
    requires b.lastRefill <= s <= t && b.tokens <= l.maxSize
    ensures Refill(l, Refill(l, b, s), t) == Refill(l, b, t)
  {
    var r := l.refillRate;
    Apart(r, t, s, b.lastRefill);
    if r >= 0.0 {
      assert (t - s) * r >= 0.0;
    } else {
      assert (s - b.lastRefill) * r <= 0.0;
      assert (t - s) * r <= 0.0;
    }
  }

  // Two buckets no later call can tell apart.
  ghost predicate Same(l: Limits, a: Option<Bucket>, b: Option<Bucket>, now: real) {
    && (a.Some? <==> b.Some?)
    && (a.Some? ==>
          && a.value.lastRefill <= now && b.value.lastRefill <= now
          && a.value.tokens <= l.maxSize && b.value.tokens <= l.maxSize
          && Refill(l, a.value, now) == Refill(l, b.value, now))
  }

  lemma SameLater(l: Limits, a: Option<Bucket>, b: Option<Bucket>, now: real, later: real)
    requires Same(l, a, b, now) && now <= later
    ensures Same(l, a, b, later)
  {
    if a.Some? {
      RefillTwice(l, a.value, now, later);
      RefillTwice(l, b.value, now, later);
    }
  }

  // A history with some of its rejected calls left out.
  ghost predicate Thinned(vs: seq<Verdict>, keep: seq<bool>) {
    |keep| == |vs| && forall i :: 0 <= i < |vs| && !keep[i] ==> !vs[i].allowed
  }

  function Pick<T>(xs: seq<T>, keep: seq<bool>): seq<T>
    requires |keep| == |xs|
  {
    if xs == [] then []
    else Pick(xs[..|xs| - 1], keep[..|xs| - 1]) + if keep[|xs| - 1] then [xs[|xs| - 1]] else []
  }

  lemma SameCall(l: Limits, a: Option<Bucket>, b: Option<Bucket>, now: real)
    requires Same(l, a, b, now)
    ensures Call(l, a, now) == Call(l, b, now)
    ensures Same(l, Some(Call(l, a, now).0), Some(Call(l, b, now).0), now)
  {
  }

  // A rejected call cannot be told from no call.
  lemma RejectedCall(l: Limits, a: Option<Bucket>, b: Option<Bucket>, now: real)
    requires Same(l, a, b, now) && !Call(l, a, now).1.allowed
    ensures Same(l, Some(Call(l, a, now).0), b, now)
  {
    RefillTwice(l, a.value, now, now);
  }

  // One more call on each side, or on the longer side only.
  lemma ThinnedStep(l: Limits, before: seq<real>, kept: seq<real>, now: real, keep: bool)
    requires |Calls(l, before).1| == |before|
    requires Same(l, Calls(l, before).0, Calls(l, kept).0, now)
    requires !keep ==> !Call(l, Calls(l, before).0, now).1.allowed
    ensures var after := if keep then kept + [now] else kept;
            && Calls(l, after).1 == Calls(l, kept).1 + (if keep then [Call(l, Calls(l, before).0, now).1] else [])
            && Same(l, Calls(l, before + [now]).0, Calls(l, after).0, now)
  {
    hide Call;
    hide Same;
    assert (before + [now])[..|before|] == before && (kept + [now])[..|kept|] == kept;
    if keep {
      SameCall(l, Calls(l, before).0, Calls(l, kept).0, now);
    } else {
      RejectedCall(l, Calls(l, before).0, Calls(l, kept).0, now);
    }
  }

  lemma ThinnedPrefix(vs: seq<Verdict>, v: Verdict, keep: seq<bool>)
    requires Thinned(vs + [v], keep)
    ensures Thinned(vs, keep[..|vs|]) && (!keep[|vs|] ==> !v.allowed)
    ensures Pick(vs + [v], keep) == Pick(vs, keep[..|vs|]) + if keep[|vs|] then [v] else []
  {
    assert (vs + [v])[|vs|] == v && (vs + [v])[..|vs|] == vs;
    forall i | 0 <= i < |vs| && !keep[..|vs|][i] ensures !vs[i].allowed {
      assert (vs + [v])[i] == vs[i];
    }
  }

  // Leaving out any rejected calls changes no other verdict and no remaining count.
  lemma {:induction false} RejectionsUnobservable(l: Limits, times: seq<real>, keep: seq<bool>)
    requires Ordered(times) && |Calls(l, times).1| == |times| && Thinned(Calls(l, times).1, keep)
    ensures Calls(l, Pick(times, keep)).1 == Pick(Calls(l, times).1, keep)
    ensures times != [] ==> Same(l, Calls(l, times).0, Calls(l, Pick(times, keep)).0, times[|times| - 1])
    ensures times == [] ==> Pick(times, keep) == []
  {
    if times == [] {
    } else {
      var n := |times| - 1;
      var before, now := times[..n], times[n];
      CallsLength(l, before);
      var (b, vs) := Calls(l, before);
      var v := Call(l, b, now).1;
      ThinnedPrefix(vs, v, keep);
      RejectionsUnobservable(l, before, keep[..n]);
      var kept := Pick(before, keep[..n]);
      assert times == before + [now];
      assert Pick(times, keep) == if keep[n] then kept + [now] else kept;
      hide Call;
      hide Thinned;
      hide Pick;
      if before != [] {
        SameLater(l, b, Calls(l, kept).0, before[n - 1], now);
      }
      hide Same;
      ThinnedStep(l, before, kept, now, keep[n]);
    }
  }

  // Many keys.

  datatype Arrival = Arrival(key: string, at: real)

  // The buckets and verdicts after a run of calls during which nothing is evicted.
  function Serve(l: Limits, calls: seq<Arrival>): (map<string, Bucket>, seq<Verdict>) {
    if calls == [] then (map[], [])
    else
      var (m, vs) := Serve(l, calls[..|calls| - 1]);
      var call := calls[|calls| - 1];
      var (b, v) := Call(l, Get(m, call.key), call.at);
      (m[call.key := b], vs + [v])
  }

  function TimesOf(calls: seq<Arrival>, key: string): seq<real> {
    if calls == [] then []
    else
      var call := calls[|calls| - 1];
      TimesOf(calls[..|calls| - 1], key) + if call.key == key then [call.at] else []
  }

  function VerdictsOf(calls: seq<Arrival>, vs: seq<Verdict>, key: string): seq<Verdict>
    requires |vs| == |calls|
  {
    if calls == [] then []
    else
      var n := |calls| - 1;
      VerdictsOf(calls[..n], vs[..n], key) + if calls[n].key == key then [vs[n]] else []
  }

  lemma {:induction false} ServeKeys(l: Limits, calls: seq<Arrival>)
    ensures |Serve(l, calls).1| == |calls|
    ensures Serve(l, calls).0.Keys == set c | c in calls :: c.key
  {
    if calls == [] {
    } else {
      ServeKeys(l, calls[..|calls| - 1]);
      assert calls == calls[..|calls| - 1] + [calls[|calls| - 1]];
    }
  }

  lemma CallsAppend(l: Limits, times: seq<real>, now: real)
    ensures var (b, vs) := Calls(l, times);
            var (b', v) := Call(l, b, now);
            Calls(l, times + [now]) == (Some(b'), vs + [v])
  {
    assert (times + [now])[..|times|] == times;
  }

  // Each key is served as if it were alone, so the bounds above hold for it in any traffic.
  lemma {:induction false} KeysIndependent(l: Limits, calls: seq<Arrival>, key: string)
    ensures |Serve(l, calls).1| == |calls|
    ensures Get(Serve(l, calls).0, key) == Calls(l, TimesOf(calls, key)).0
    ensures VerdictsOf(calls, Serve(l, calls).1, key) == Calls(l, TimesOf(calls, key)).1
  {
    ServeKeys(l, calls);
    if calls == [] {
    } else {
      hide Call;
      var n := |calls| - 1;
      var before, call := calls[..n], calls[n];
      ServeKeys(l, before);
      KeysIndependent(l, before, key);
      var (m, vs) := Serve(l, before);
      var (b, v) := Call(l, Get(m, call.key), call.at);
      assert (vs + [v])[..n] == vs;
      if call.key == key {
        CallsAppend(l, TimesOf(before, key), call.at);
      } else {
        assert TimesOf(calls, key) == TimesOf(before, key);
      }
    }
  }

  const MAX_BUCKETS := 10000

  // An entry nobody has touched for longer than the others.
  ghost predicate Oldest(m: map<string, Bucket>, k: string) {
    k in m && forall j :: j in m ==> m[k].lastRefill <= m[j].lastRefill
  }

  // What one call of the limiter object may do: charge the key's bucket, and make room for a
  // new one if there are too many.
  ghost predicate AllowStep(l: Limits, m: map<string, Bucket>, call: Arrival, n: map<string, Bucket>, v: Verdict) {
    && |n| <= MAX_BUCKETS && call.key in n
    && (n[call.key], v) == Call(l, Get(m, call.key), call.at)
    && (if call.key in m || |m| < MAX_BUCKETS then n == m[call.key := n[call.key]]
        else exists k :: Oldest(m, k) && n == (m - {k})[call.key := n[call.key]])
  }

  // A run of the object: its buckets before and after each call, and its verdicts.
  ghost predicate AllowRun(l: Limits, calls: seq<Arrival>, states: seq<map<string, Bucket>>, vs: seq<Verdict>) {
    && |states| == |calls| + 1 && |vs| == |calls| && states[0] == map[]
    && forall i :: 0 <= i < |calls| ==> AllowStep(l, states[i], calls[i], states[i + 1], vs[i])
  }

  function KeysOf(calls: seq<Arrival>): set<string> {
    set c <- calls :: c.key
  }

  // While there are few keys nothing is evicted.
  lemma ServesNext(l: Limits, before: seq<Arrival>, call: Arrival, n: map<string, Bucket>, v: Verdict)
    requires AllowStep(l, Serve(l, before).0, call, n, v) && |KeysOf(before + [call])| <= MAX_BUCKETS
    ensures Serve(l, before + [call]) == (n, Serve(l, before).1 + [v])
  {
    hide Call;
    assert (before + [call])[..|before|] == before;
    ServeKeys(l, before);
    FewerKeys(before, call);
    var m := Serve(l, before).0;
    assert m.Keys == KeysOf(before);
    assert call.key in m || |m.Keys| < MAX_BUCKETS;
    assert |m.Keys| == |m|;
  }

  // So with few enough keys the object gives the verdicts of Serve ...
  lemma {:induction false} ObjectServes(l: Limits, calls: seq<Arrival>, states: seq<map<string, Bucket>>, vs: seq<Verdict>)
    requires AllowRun(l, calls, states, vs) && |KeysOf(calls)| <= 10000
    ensures states[|calls|] == Serve(l, calls).0 && vs == Serve(l, calls).1
  {
    if calls == [] {
    } else {
      var n := |calls| - 1;
      var before, call := calls[..n], calls[n];
      assert calls == before + [call];
      FewerKeys(before, call);
      hide AllowStep;
      hide KeysOf;
      ObjectServes(l, before, states[..n + 1], vs[..n]);
      assert AllowStep(l, states[n], call, states[n + 1], vs[n]);
      hide Serve;
      ServesNext(l, before, call, states[n + 1], vs[n]);
      assert vs == vs[..n] + [vs[n]];
    }
  }

  // ... so to each key those it would get if it were alone, for which the bounds above hold.
  lemma ObjectKeysIndependent(l: Limits, calls: seq<Arrival>, states: seq<map<string, Bucket>>, vs: seq<Verdict>, key: string)
    requires AllowRun(l, calls, states, vs) && |KeysOf(calls)| <= 10000
    ensures VerdictsOf(calls, vs, key) == Calls(l, TimesOf(calls, key)).1
  {
    ObjectServes(l, calls, states, vs);
    KeysIndependent(l, calls, key);
  }

  lemma FewerKeys(before: seq<Arrival>, call: Arrival)
    ensures KeysOf(before + [call]) == KeysOf(before) + {call.key}
    ensures |KeysOf(before)| <= |KeysOf(before + [call])|
    ensures call.key !in KeysOf(before) ==> |KeysOf(before)| < |KeysOf(before + [call])|
  {
    var all := before + [call];
    assert forall c :: c in all <==> c in before || c == call;
    var keys := KeysOf(before);
    assert KeysOf(all) == keys + {call.key};
    hide KeysOf;
    if call.key in keys {
      assert keys + {call.key} == keys;
    }
  }

  class RateLimiter {
    var buckets: map<string, Bucket>
    const limits: Limits

    constructor (rate: int, window: int, maxSize: int)
      ensures buckets == map[]
      ensures limits.maxSize == (if maxSize <= 0 then rate else maxSize) as real
      ensures limits.refillRate == rate as real / (if window <= 0 then 60 else window) as real
    {
      var w := if window <= 0 then 60 else window;
      var size := if maxSize <= 0 then rate else maxSize;
      buckets := map[];
      limits := Limits(size as real, rate as real / w as real);
    }

    // allow: refill and charge the key's bucket, or create it.
    method Allow(key: string, now: real) returns (v: Verdict)
      requires |buckets| <= 10000
      modifies this
      ensures |buckets| <= 10000
      ensures AllowStep(limits, old(buckets), Arrival(key, now), buckets, v)
    {
      if key !in buckets {
        if |buckets| >= MAX_BUCKETS {
          var k := FindOldest();
          buckets := buckets - {k};
          assert |buckets.Keys| == |old(buckets).Keys| - 1;
        }
        var bucket := Bucket(limits.maxSize, now);
        buckets := buckets[key := bucket];
        return Verdict(true, bucket.tokens);
      }
      var bucket := buckets[key];
      var tokens := bucket.tokens + (now - bucket.lastRefill) * limits.refillRate;
      if tokens > limits.maxSize {
        tokens := limits.maxSize;
      }
      assert Refill(limits, bucket, now) == Bucket(tokens, now);
      if tokens >= 1.0 {
        buckets := buckets[key := Bucket(tokens - 1.0, now)];
        assert |buckets.Keys| == |old(buckets).Keys| by { assert buckets.Keys == old(buckets).Keys; }
        return Verdict(true, tokens - 1.0);
      }
      buckets := buckets[key := Bucket(tokens, now)];
      assert |buckets.Keys| == |old(buckets).Keys| by { assert buckets.Keys == old(buckets).Keys; }
      return Verdict(false, 0.0);
    }

    // The scan for the bucket to evict, in any order.
    method FindOldest() returns (oldest: string)
      requires buckets != map[]
      ensures Oldest(buckets, oldest)
    {
      oldest :| oldest in buckets;
      var todo := buckets.Keys - {oldest};
      while todo != {}
        invariant todo <= buckets.Keys && oldest in buckets
        invariant forall j :: j in buckets && j !in todo ==> buckets[oldest].lastRefill <= buckets[j].lastRefill
      {
        var k :| k in todo;
        todo := todo - {k};
        if buckets[k].lastRefill < buckets[oldest].lastRefill {
          oldest := k;
        }
      }
    }
  }
}
