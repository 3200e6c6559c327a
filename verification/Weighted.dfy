// internal/router/router.go with internal/router/backend.go: how far failover gets by
// weighted round-robin, where a target is met again as long as its share lasts.
module Weighted {
  import opened Arith
  import opened Completeness
  import opened Failover
  import opened Options
  import opened Rota
  import opened Selection
  import opened Sticky
  import opened Targets

  // The place a ticket falls on.
  function At(hs: seq<Target>, ticket: nat): (k: nat)
    requires hs != []
    ensures k < |hs|
  {
    Share(hs, ticket % TotalWeight(hs))
  }

  // The addresses the loop tries when every attempt fails.
  function Tries(hs: seq<Target>, ticket: nat, left: nat, tried: set<string>): seq<string>
    decreases left
  {
    if left == 0 || hs == [] then []
    else
      var k := At(hs, ticket);
      if hs[k].address in tried then []
      else [hs[k].address] + Tries(FailedAt(hs, k), ticket + 1, left - 1, tried + {hs[k].address})
  }

  lemma TryOne(hs: seq<Target>, ticket: nat, left: nat, tried: set<string>)
    requires left > 0 && hs != []
    ensures var k := At(hs, ticket);
            Tries(hs, ticket, left, tried) ==
              if hs[k].address in tried then []
              else [hs[k].address] + Tries(FailedAt(hs, k), ticket + 1, left - 1, tried + {hs[k].address})
  {
  }

  // The loop tries these.

  ghost predicate WeightedReady(w: World, s: Progress, i: nat, max: nat) {
    && Silent(w) && AllDown(w) && s.pool.strategy.WeightedRoundRobin? && Distinct(s.pool.targets)
    && i <= max && s.pool.ticket + (max - i) < TWO_TO_64
    && !s.committed && !s.req.rewind.Fails?
  }

  function Upcoming(s: Progress, i: nat, max: nat): seq<string>
    requires i <= max
  {
    Tries(Rotation(s.pool.targets), s.pool.ticket, max - i, s.tried)
  }

  lemma WeightedTurn(w: World, s: Progress, i: nat, max: nat)
    requires WeightedReady(w, s, i, max) && i < max && Rotation(s.pool.targets) != []
    ensures var (t, next) := Turn(w, s, i, true);
            var hs, k := Rotation(s.pool.targets), At(Rotation(s.pool.targets), s.pool.ticket);
            if hs[k].address in s.tried then next.GiveUp? && t.trace == s.trace
            else
              && next.Retry? && WeightedReady(w, t, i + 1, max)
              && AddressList(t.trace) == AddressList(s.trace) + [hs[k].address]
              && Upcoming(s, i, max) == [hs[k].address] + Upcoming(t, i + 1, max)
  {
    hide Rotation;
    hide FailedAttempt;
    hide FailedAt;
    hide Distinct;
    hide Choice;
    hide Share;
    hide TotalWeight;
    hide Turn;
    hide Drawn;
    hide Tries;
    var hs, k := Rotation(s.pool.targets), At(Rotation(s.pool.targets), s.pool.ticket);
    WeightedChoice(s.pool, w.ip, w.draw(i));
    TryOne(hs, s.pool.ticket, max - i, s.tried);
    if hs[k].address in s.tried {
      SilentStop(w, s, i);
    } else {
      var x := SilentTurn(w, s, i, k);
      AfterAttempt(s.pool.targets, k);
    }
  }

  lemma {:induction false} LoopTriesShares(w: World, s: Progress, i: nat, max: nat)
    requires WeightedReady(w, s, i, max)
    ensures AddressList(Loop(w, s, i, max, true).trace) == AddressList(s.trace) + Upcoming(s, i, max)
    decreases max - i
  {
    hide Turn;
    hide Rotation;
    hide At;
    if i >= max {
    } else if Rotation(s.pool.targets) == [] {
      SilentStop(w, s, i);
    } else {
      var hs, k := Rotation(s.pool.targets), At(Rotation(s.pool.targets), s.pool.ticket);
      WeightedTurn(w, s, i, max);
      if hs[k].address in s.tried {
        TryOne(hs, s.pool.ticket, max - i, s.tried);
      } else {
        var t := Turn(w, s, i, true).0;
        hide WeightedReady;
        hide Upcoming;
        LoopTriesShares(w, t, i + 1, max);
        var a := hs[k].address;
        assert AddressList(s.trace) + [a] + Upcoming(t, i + 1, max) == AddressList(s.trace) + ([a] + Upcoming(t, i + 1, max));
      }
    }
  }

  // With all backends down, a request under weighted round-robin tries these.
  lemma WeightedHandleTries(w: World, p: Pool, q: Req, max: nat)
    requires Silent(w) && AllDown(w) && Distinct(p.targets) && Replayable(q)
    requires p.strategy.WeightedRoundRobin? && p.ticket + max < TWO_TO_64
    ensures AddressList(Handle(w, p, q, max).trace) == Tries(Rotation(p.targets), p.ticket, max, {})
  {
    hide Prepared;
    hide Rotation;
    hide Tries;
    hide Distinct;
    hide AllDown;
    hide Silent;
    hide Loop;
    PreparedReplayable(p, q, max);
    var s := Progress(p, Prepared(p, q, max).0, {}, [], [], false);
    LoopTriesShares(w, s, 0, max);
    assert Upcoming(s, 0, max) == Tries(Rotation(p.targets), p.ticket, max, {});
    assert AddressList(s.trace) == [];
    hide AddressList;
    hide Upcoming;
  }

  // What an attempt leaves of the rotation.

  predicate Tired(t: Target) {
    t.consecFail + 1 >= PASSIVE_EJECT_THRESHOLD
  }

  // A target that stays after a failure is met by one ticket only.
  predicate FreshUnit(hs: seq<Target>) {
    forall i :: 0 <= i < |hs| && !Tired(hs[i]) ==> Effective(hs[i].weight) == 1
  }

  lemma WeightDropped(hs: seq<Target>, k: nat)
    requires k < |hs|
    ensures TotalWeight(hs[..k] + hs[k + 1..]) == TotalWeight(hs) - Effective(hs[k].weight)
  {
    hide Effective;
    assert hs == hs[..k + 1] + hs[k + 1..];
    TotalSplit(hs[..k + 1], hs[k + 1..]);
    TotalUpTo(hs, k);
    TotalSplit(hs[..k], hs[k + 1..]);
    hide TotalWeight;
  }

  lemma Dropped(hs: seq<Target>, k: nat)
    requires k < |hs| && Distinct(hs) && Ejects(hs, k)
    ensures var us := FailedAt(hs, k);
            && us == hs[..k] + hs[k + 1..] && |us| == |hs| - 1 && Distinct(us)
            && (forall i :: 0 <= i < |us| ==> us[i] == hs[if i < k then i else i + 1])
            && (FreshUnit(hs) ==> FreshUnit(us)) && (AllEject(hs) ==> AllEject(us))
  {
    DroppedAt(hs, k);
    hide FailedAt;
    hide Ejects;
    hide Effective;
    hide Tired;
  }

  lemma DroppedAt(hs: seq<Target>, k: nat)
    requires k < |hs| && Ejects(hs, k)
    ensures var us := FailedAt(hs, k);
            && us == hs[..k] + hs[k + 1..] && |us| == |hs| - 1
            && forall i :: 0 <= i < |us| ==> us[i] == hs[if i < k then i else i + 1]
  {
  }

  lemma Stayed(hs: seq<Target>, k: nat)
    requires k < |hs| && Distinct(hs) && !Ejects(hs, k)
    ensures var us := FailedAt(hs, k);
            && |us| == |hs| && Distinct(us) && us == hs[k := FailedTarget(hs[k], |hs| > 1)]
            && (forall i :: 0 <= i < |us| ==> us[i].address == hs[i].address && us[i].weight == hs[i].weight)
  {
  }

  // At most as many are tried as there are in rotation, or attempts.
  lemma {:induction false} TriesBounded(hs: seq<Target>, ticket: nat, left: nat, tried: set<string>, home: set<string>)
    requires Distinct(hs) && forall i :: 0 <= i < |hs| ==> hs[i].address in home
    ensures |Tries(hs, ticket, left, tried)| <= left
    ensures |Tries(hs, ticket, left, tried)| <= |home - tried|
    decreases left
  {
    hide At;
    hide FailedAt;
    hide Distinct;
    if left == 0 || hs == [] {
    } else {
      var k := At(hs, ticket);
      var a := hs[k].address;
      if a !in tried {
        if Ejects(hs, k) {
          Dropped(hs, k);
        } else {
          Stayed(hs, k);
        }
        TriesBounded(FailedAt(hs, k), ticket + 1, left - 1, tried + {a}, home);
        assert home - (tried + {a}) == home - tried - {a};
      }
    }
  }

  // The second attempt goes elsewhere exactly if the first failure ejects, or the ticket was
  // the last of its share.
  lemma SecondPlace(hs: seq<Target>, ticket: nat)
    requires hs != [] && Distinct(hs)
    ensures var k := At(hs, ticket);
            var us := FailedAt(hs, k);
            us != [] && (us[At(us, ticket + 1)].address != hs[k].address <==>
              Ejects(hs, k) || (|hs| > 1 && ticket % TotalWeight(hs) + 1 == TotalWeight(hs[..k + 1])))
  {
    hide Share;
    hide TotalWeight;
    var k := At(hs, ticket);
    var us := FailedAt(hs, k);
    if Ejects(hs, k) {
      WeightedGone(hs, us, k, At(us, ticket + 1));
    } else {
      Stayed(hs, k);
      WeightedSame(hs, us, k, FailedTarget(hs[k], |hs| > 1), ticket);
    }
  }

  // Where a ticket stands that falls on a target of unit weight.
  lemma UnitShare(hs: seq<Target>, ticket: nat)
    requires hs != [] && Effective(hs[At(hs, ticket)].weight) == 1
    ensures var k := At(hs, ticket);
            ticket % TotalWeight(hs) == TotalWeight(hs[..k]) && TotalWeight(hs[..k + 1]) == TotalWeight(hs[..k]) + 1
  {
    var k := At(hs, ticket);
    ShareInterval(hs, ticket % TotalWeight(hs), k);
    TotalUpTo(hs, k);
    hide TotalWeight;
    hide Share;
    hide Effective;
  }

  lemma SecondUntried(hs: seq<Target>, ticket: nat)
    requires Distinct(hs) && FreshUnit(hs) && |hs| > 1
    ensures var k := At(hs, ticket);
            var us := FailedAt(hs, k);
            us != [] && us[At(us, ticket + 1)].address != hs[k].address
  {
    hide At;
    hide TotalWeight;
    var k := At(hs, ticket);
    SecondPlace(hs, ticket);
    if !Ejects(hs, k) {
      UnitShare(hs, ticket);
    }
  }

  // The next ticket falls on the next place.
  lemma NextPlace(hs: seq<Target>, ticket: nat)
    requires hs != [] && Effective(hs[At(hs, ticket)].weight) == 1
    ensures var k := At(hs, ticket);
            At(hs, ticket + 1) == if k + 1 == |hs| then 0 else k + 1
  {
    var w, k := TotalWeight(hs), At(hs, ticket);
    UnitShare(hs, ticket);
    NextPosition(ticket, w);
    if k + 1 == |hs| {
      assert hs[..k + 1] == hs;
      ShareInterval(hs, 0, 0);
    } else {
      assert hs == hs[..k + 1] + hs[k + 1..];
      TotalSplit(hs[..k + 1], hs[k + 1..]);
      TotalUpTo(hs, k + 1);
      ShareInterval(hs, TotalWeight(hs[..k + 1]), k + 1);
    }
  }

  // A fresh target and the worn one after it: when the ticket that follows them falls on the
  // first again.

  lemma SameAt(hs: seq<Target>, us: seq<Target>, ticket: nat)
    requires hs != [] && |us| == |hs| && forall i :: 0 <= i < |hs| ==> us[i].weight == hs[i].weight
    ensures At(us, ticket) == At(hs, ticket)
  {
    SameShare(hs, us, ticket % TotalWeight(hs));
    hide TotalWeight;
    hide Share;
  }

  // The cyclic successor.
  function After(hs: seq<Target>, i: nat): (j: nat)
    requires i < |hs|
    ensures j < |hs|
  {
    if i + 1 == |hs| then 0 else i + 1
  }

  function Wraps(j: nat): (off: nat)
    ensures off <= 1
  {
    if j == 0 then 1 else 0
  }

  // Where the i-th is found once its successor has gone.
  function Shifted(hs: seq<Target>, i: nat): (b: nat)
    requires i < |hs| && |hs| > 1
    ensures b < |hs| - 1
  {
    if i + 1 == |hs| then i - 1 else i
  }

  lemma BackAt(hs: seq<Target>, i: nat)
    requires i < |hs| && |hs| > 1
    ensures var j, b := After(hs, i), Shifted(hs, i);
            var vs := hs[..j] + hs[j + 1..];
            && |vs| == |hs| - 1 && vs[b] == hs[i]
            && TotalWeight(vs[..b]) == TotalWeight(hs[..i]) - if j == 0 then Effective(hs[0].weight) else 0
  {
    hide Effective;
    var j, b := After(hs, i), Shifted(hs, i);
    var vs := hs[..j] + hs[j + 1..];
    if j == 0 {
      assert vs[..b] == hs[..i][..0] + hs[..i][1..];
      WeightDropped(hs[..i], 0);
      hide TotalWeight;
    } else {
      assert vs[..b] == hs[..i];
      hide TotalWeight;
    }
  }

  lemma SameRemainder(x: nat, lo: nat, m: nat)
    requires lo < m
    ensures x % m == lo <==> (x - lo) % m == 0
  {
    if x % m == lo {
      ModUnique(x - lo, m, x / m, 0);
    } else if (x - lo) % m == 0 {
      ModUnique(x, m, (x - lo) / m, lo);
    }
  }

  // Where a ticket stands in its round of w, and how many rounds went before.

  predicate Stands(ticket: nat, w: nat, pos: nat)
    requires w > 0
  {
    ticket % w == pos
  }

  function Laps(ticket: nat, w: nat): nat
    requires w > 0
  {
    ticket / w
  }

  // e times q is two short of a multiple of m.
  predicate Closes(e: nat, q: nat, m: nat)
    requires m > 0
  {
    (e * q + 2) % m == 0
  }

  // Two tickets on, in a round of m where there were w = m + e.
  lemma TwoOn(ticket: nat, w: nat, m: nat, e: nat, start: nat, lo: nat, off: nat)
    requires lo < m && w == m + e && off <= 1 && start == lo + (if off == 1 then e else 0)
    requires Stands(ticket, w, start)
    ensures Stands(ticket + 2, m, lo) <==> Closes(e, Laps(ticket, w) + off, m)
  {
    var q := ticket / w;
    SameRemainder(ticket + 2, lo, m);
    Spread(m, e, q);
    Spread(q, off, e);
    assert off * e == if off == 1 then e else 0;
    assert ticket + 2 - lo == (e * (q + off) + 2) + q * m;
    ModPlus(e * (q + off) + 2, m, q);
  }

  // The rotation without its k-th.
  function Others(hs: seq<Target>, k: nat): seq<Target>
    requires k < |hs|
  {
    hs[..k] + hs[k + 1..]
  }

  // A ticket falls on a target of unit weight exactly if it stands at its place.
  lemma FallsOn(vs: seq<Target>, ticket: nat, b: nat)
    requires b < |vs| && Effective(vs[b].weight) == 1
    ensures At(vs, ticket) == b <==> Stands(ticket, TotalWeight(vs), TotalWeight(vs[..b]))
    ensures TotalWeight(vs[..b]) < TotalWeight(vs)
  {
    ShareInterval(vs, ticket % TotalWeight(vs), b);
    TotalUpTo(vs, b);
    assert vs == vs[..b + 1] + vs[b + 1..];
    TotalSplit(vs[..b + 1], vs[b + 1..]);
    hide TotalWeight;
    hide Share;
    hide Effective;
  }

  lemma Comeback(hs: seq<Target>, ticket: nat)
    requires |hs| > 1 && Effective(hs[At(hs, ticket)].weight) == 1
    ensures var i := At(hs, ticket);
            var j := After(hs, i);
            var vs := Others(hs, j);
            && vs != []
            && (At(vs, ticket + 2) == Shifted(hs, i) <==>
                  Closes(Effective(hs[j].weight), Laps(ticket, TotalWeight(hs)) + Wraps(j), TotalWeight(vs)))
  {
    hide Share;
    hide TotalWeight;
    hide Effective;
    hide At;
    hide Closes;
    hide Stands;
    hide Laps;
    var i := At(hs, ticket);
    var j, b := After(hs, i), Shifted(hs, i);
    var vs := Others(hs, j);
    FallsOn(hs, ticket, i);
    WeightDropped(hs, j);
    BackAt(hs, i);
    FallsOn(vs, ticket + 2, b);
    TwoOn(ticket, TotalWeight(hs), TotalWeight(vs), Effective(hs[j].weight),
          TotalWeight(hs[..i]), TotalWeight(vs[..b]), Wraps(j));
  }

  // A fresh target, and after it a worn one whose weight and that of the others have no common
  // divisor above two.
  predicate Meets(hs: seq<Target>, i: nat)
    requires i < |hs| && |hs| > 1
  {
    var j := After(hs, i);
    !Tired(hs[i]) && Tired(hs[j]) && Gcd(Effective(hs[j].weight), TotalWeight(Others(hs, j))) <= 2
  }

  // Some ticket meets the first, then the second, and then the first again.
  lemma MeetingTicket(hs: seq<Target>, i: nat) returns (ticket: nat)
    requires i < |hs| && |hs| > 1 && Meets(hs, i) && Effective(hs[i].weight) == 1
    ensures At(hs, ticket) == i
    ensures At(Others(hs, After(hs, i)), ticket + 2) == Shifted(hs, i)
    ensures ticket < TotalWeight(hs) * TotalWeight(hs)
  {
    var j, w := After(hs, i), TotalWeight(hs);
    var e, m := Effective(hs[j].weight), TotalWeight(Others(hs, j));
    WeightDropped(hs, j);
    FallsOn(hs, 0, i);
    var lo := TotalWeight(hs[..i]);
    hide TotalWeight;
    hide Effective;
    hide At;
    hide Closes;
    var q := RoundsBetween(e, m, Wraps(j));
    ticket := lo + q * w;
    ModUnique(ticket, w, q, lo);
    FallsOn(hs, ticket, i);
    Comeback(hs, ticket);
    BelowSquare(lo, q, w, m);
  }

  lemma RoundsBetween(e: nat, m: nat, off: nat) returns (q: nat)
    requires e > 0 && m > 0 && Gcd(e, m) <= 2 && off <= 1
    ensures q < m && Closes(e, q + off, m)
  {
    var p := TwoShort(e, m);
    hide Gcd;
    if off == 0 {
      q := p;
    } else if p > 0 {
      q := p - 1;
    } else {
      q := m - 1;
      ModPlus(2, m, e);
    }
  }

  lemma BelowSquare(lo: nat, q: nat, w: nat, m: nat)
    requires lo < w && q < m <= w
    ensures lo + q * w < w * w
  {
    assert q * w <= (w - 1) * w;
  }

  // One attempt after another.

  lemma TryFirst(hs: seq<Target>, ticket: nat, left: nat, tried: set<string>, k: nat)
    requires left > 0 && hs != [] && k == At(hs, ticket) && hs[k].address !in tried
    ensures |Tries(hs, ticket, left, tried)| == 1 + |Tries(FailedAt(hs, k), ticket + 1, left - 1, tried + {hs[k].address})|
  {
    hide At;
    TryOne(hs, ticket, left, tried);
  }

  lemma TryNone(hs: seq<Target>, ticket: nat, left: nat, tried: set<string>)
    requires hs != [] && hs[At(hs, ticket)].address in tried
    ensures Tries(hs, ticket, left, tried) == []
  {
    hide At;
  }

  // A fresh target with a larger share is met twice in a row.
  lemma HeavyOnce(hs: seq<Target>, i: nat, left: nat)
    requires Distinct(hs) && i < |hs| && |hs| > 1 && left > 1
    requires !Tired(hs[i]) && Effective(hs[i].weight) > 1
    ensures TotalWeight(hs[..i]) < TotalWeight(hs)
    ensures |Tries(hs, TotalWeight(hs[..i]), left, {})| == 1
  {
    hide Share;
    hide TotalWeight;
    hide Effective;
    hide Distinct;
    hide Tries;
    var ticket := TotalWeight(hs[..i]);
    ShareStarts(hs, i);
    TotalUpTo(hs, i);
    SecondPlace(hs, ticket);
    assert At(hs, ticket) == i;
    TryFirst(hs, ticket, left, {}, i);
    TryNone(FailedAt(hs, i), ticket + 1, left - 1, {} + {hs[i].address});
  }

  lemma ShareStarts(hs: seq<Target>, i: nat)
    requires i < |hs|
    ensures TotalWeight(hs[..i]) < TotalWeight(hs) && TotalWeight(hs[..i]) % TotalWeight(hs) == TotalWeight(hs[..i])
    ensures At(hs, TotalWeight(hs[..i])) == i
  {
    hide TotalWeight;
    hide Share;
    hide Effective;
    StartsBelow(hs, i);
    SmallMod(TotalWeight(hs[..i]), TotalWeight(hs));
    ShareInterval(hs, TotalWeight(hs[..i]), i);
  }

  lemma StartsBelow(hs: seq<Target>, i: nat)
    requires i < |hs|
    ensures TotalWeight(hs[..i]) + Effective(hs[i].weight) <= TotalWeight(hs)
  {
    hide TotalWeight;
    hide Effective;
    TotalUpTo(hs, i);
    assert hs == hs[..i + 1] + hs[i + 1..];
    TotalSplit(hs[..i + 1], hs[i + 1..]);
  }

  // After a fresh target and the worn one next to it.
  lemma FreshThenTired(hs: seq<Target>, ticket: nat, i: nat)
    requires Distinct(hs) && |hs| > 2 && i == At(hs, ticket) && Effective(hs[i].weight) == 1
    requires !Tired(hs[i]) && Tired(hs[After(hs, i)])
    ensures var us, j := FailedAt(hs, i), After(hs, i);
            && !Ejects(hs, i) && us == hs[i := FailedTarget(hs[i], true)] && Distinct(us)
            && At(us, ticket + 1) == j && us[j] == hs[j] && Ejects(us, j) && hs[j].address != hs[i].address
            && FailedAt(us, j) != [] && At(FailedAt(us, j), ticket + 2) == At(Others(hs, j), ticket + 2)
            && FailedAt(us, j)[Shifted(hs, i)].address == hs[i].address
  {
    hide TotalWeight;
    hide Share;
    hide Effective;
    hide At;
    var us, j := FailedAt(hs, i), After(hs, i);
    Stayed(hs, i);
    NextPlace(hs, ticket);
    SameAt(hs, us, ticket + 1);
    SameAt(Others(hs, j), FailedAt(us, j), ticket + 2);
  }

  lemma MeetsTwice(hs: seq<Target>, i: nat, left: nat) returns (ticket: nat)
    requires Distinct(hs) && FreshUnit(hs) && i < |hs| && |hs| > 2 && left > 2 && Meets(hs, i)
    ensures ticket < TotalWeight(hs) * TotalWeight(hs)
    ensures |Tries(hs, ticket, left, {})| == 2
  {
    hide TotalWeight;
    hide Effective;
    hide Distinct;
    hide Tries;
    hide At;
    var j := After(hs, i);
    ticket := MeetingTicket(hs, i);
    FreshThenTired(hs, ticket, i);
    var us := FailedAt(hs, i);
    var vs := FailedAt(us, j);
    TryFirst(hs, ticket, left, {}, i);
    TryFirst(us, ticket + 1, left - 1, {} + {hs[i].address}, j);
    assert vs[At(vs, ticket + 2)].address == hs[i].address;
    TryNone(vs, ticket + 2, left - 2, {} + {hs[i].address} + {hs[j].address});
  }

  // Otherwise a third attempt is made.

  ghost predicate NoneMeets(hs: seq<Target>) {
    |hs| > 1 ==> forall i :: 0 <= i < |hs| ==> !Meets(hs, i)
  }

  lemma MetOnlyIf(hs: seq<Target>, ticket: nat, i: nat)
    requires Distinct(hs) && |hs| > 2 && i == At(hs, ticket) && Effective(hs[i].weight) == 1
    requires !Tired(hs[i]) && Tired(hs[After(hs, i)]) && At(Others(hs, After(hs, i)), ticket + 2) == Shifted(hs, i)
    ensures Meets(hs, i)
  {
    hide TotalWeight;
    hide Share;
    hide Effective;
    hide At;
    var j := After(hs, i);
    Comeback(hs, ticket);
    ClosesOnly(Effective(hs[j].weight), Laps(ticket, TotalWeight(hs)) + Wraps(j), TotalWeight(Others(hs, j)));
  }

  lemma ClosesOnly(e: nat, q: nat, m: nat)
    requires e > 0 && m > 0 && Closes(e, q, m)
    ensures Gcd(e, m) <= 2
  {
    TwoShortOnly(e, m, q);
  }

  // First an ejected target ...
  lemma ThirdAfterEjection(hs: seq<Target>, ticket: nat, k: nat)
    requires Distinct(hs) && FreshUnit(hs) && |hs| > 2 && k == At(hs, ticket) && Ejects(hs, k)
    ensures var us := FailedAt(hs, k);
            && us != [] && Distinct(us)
            && var l := At(us, ticket + 1);
               var vs := FailedAt(us, l);
               && us[l].address != hs[k].address
               && vs != [] && vs[At(vs, ticket + 2)].address !in {hs[k].address, us[l].address}
  {
    hide TotalWeight;
    hide Share;
    hide Effective;
    hide At;
    hide Tired;
    var us := FailedAt(hs, k);
    Dropped(hs, k);
    var l := At(us, ticket + 1);
    SecondUntried(us, ticket + 1);
    var vs := FailedAt(us, l);
    var c := At(vs, ticket + 2);
    assert vs[c].address == us[if Ejects(us, l) && c >= l then c + 1 else c].address;
    assert forall x :: 0 <= x < |us| ==> us[x].address != hs[k].address;
  }

  // ... then one that stays, and one that stays too ...
  lemma ThirdAfterFresh(hs: seq<Target>, ticket: nat, k: nat)
    requires Distinct(hs) && FreshUnit(hs) && |hs| > 2 && k == At(hs, ticket)
    requires !Tired(hs[k]) && !Tired(hs[After(hs, k)])
    ensures var us := FailedAt(hs, k);
            && us != [] && Distinct(us)
            && var l := At(us, ticket + 1);
               var vs := FailedAt(us, l);
               && us[l].address != hs[k].address
               && vs != [] && vs[At(vs, ticket + 2)].address !in {hs[k].address, us[l].address}
  {
    hide TotalWeight;
    hide Share;
    hide Effective;
    hide At;
    var us, j := FailedAt(hs, k), After(hs, k);
    Stayed(hs, k);
    NextPlace(hs, ticket);
    SameAt(hs, us, ticket + 1);
    assert us[j] == hs[j];
    var vs := FailedAt(us, j);
    Stayed(us, j);
    NextPlace(hs, ticket + 1);
    SameAt(hs, vs, ticket + 2);
  }

  // ... or one that does not.
  lemma ThirdAfterTired(hs: seq<Target>, ticket: nat, k: nat)
    requires Distinct(hs) && FreshUnit(hs) && |hs| > 2 && k == At(hs, ticket) && NoneMeets(hs)
    requires !Tired(hs[k]) && Tired(hs[After(hs, k)])
    ensures var us := FailedAt(hs, k);
            && us != [] && Distinct(us)
            && var l := At(us, ticket + 1);
               var vs := FailedAt(us, l);
               && us[l].address != hs[k].address
               && vs != [] && vs[At(vs, ticket + 2)].address !in {hs[k].address, us[l].address}
  {
    hide TotalWeight;
    hide Share;
    hide Effective;
    hide At;
    hide Meets;
    var us, j := FailedAt(hs, k), After(hs, k);
    FreshThenTired(hs, ticket, k);
    var vs := FailedAt(us, j);
    var c := At(vs, ticket + 2);
    if c == Shifted(hs, k) {
      MetOnlyIf(hs, ticket, k);
    }
    Dropped(us, j);
    assert vs[c].address != vs[Shifted(hs, k)].address;
  }

  lemma ThreeTried(hs: seq<Target>, ticket: nat, left: nat)
    requires Distinct(hs) && FreshUnit(hs) && |hs| > 2 && left > 2 && NoneMeets(hs)
    ensures |Tries(hs, ticket, left, {})| >= 3
  {
    hide At;
    hide Tries;
    hide Distinct;
    hide FreshUnit;
    hide NoneMeets;
    hide FailedAt;
    var k := At(hs, ticket);
    if Tired(hs[k]) {
      ThirdAfterEjection(hs, ticket, k);
    } else if Tired(hs[After(hs, k)]) {
      ThirdAfterTired(hs, ticket, k);
    } else {
      ThirdAfterFresh(hs, ticket, k);
    }
    var us := FailedAt(hs, k);
    var l := At(us, ticket + 1);
    var vs := FailedAt(us, l);
    TryFirst(hs, ticket, left, {}, k);
    TryFirst(us, ticket + 1, left - 1, {} + {hs[k].address}, l);
    TryFirst(vs, ticket + 2, left - 2, {} + {hs[k].address} + {us[l].address}, At(vs, ticket + 2));
  }

  lemma TwoTried(hs: seq<Target>, ticket: nat, left: nat)
    requires Distinct(hs) && FreshUnit(hs) && |hs| > 1 && left > 1
    ensures |Tries(hs, ticket, left, {})| >= 2
  {
    hide At;
    hide Tries;
    hide Distinct;
    hide FreshUnit;
    hide FailedAt;
    var k := At(hs, ticket);
    var us := FailedAt(hs, k);
    SecondUntried(hs, ticket);
    TryFirst(hs, ticket, left, {}, k);
    TryFirst(us, ticket + 1, left - 1, {} + {hs[k].address}, At(us, ticket + 1));
  }

  // Wear that is even.

  predicate AllRested(hs: seq<Target>) {
    forall i :: 0 <= i < |hs| ==> !Tired(hs[i])
  }

  lemma TiredStep(hs: seq<Target>, k: nat, tried: set<string>)
    requires Distinct(hs) && AllEject(hs) && NoneTried(hs, tried) && k < |hs|
    ensures var us, after := FailedAt(hs, k), tried + {hs[k].address};
            if |hs| > 1 then |us| == |hs| - 1 && Distinct(us) && AllEject(us) && NoneTried(us, after)
            else |us| == 1 && us[0].address in after
  {
    if |hs| > 1 {
      StillNoneTried(hs, k, tried);
      Dropped(hs, k);
    }
    hide Distinct;
    hide NoneTried;
  }

  lemma {:induction false} TiredTries(hs: seq<Target>, ticket: nat, left: nat, tried: set<string>)
    requires Distinct(hs) && AllEject(hs) && NoneTried(hs, tried)
    ensures |Tries(hs, ticket, left, tried)| == Least(left, |hs|)
    decreases left
  {
    hide At;
    hide Distinct;
    hide AllEject;
    hide FailedAt;
    if left == 0 || hs == [] {
    } else {
      var k := At(hs, ticket);
      var us, after := FailedAt(hs, k), tried + {hs[k].address};
      TryFirst(hs, ticket, left, tried, k);
      TiredStep(hs, k, tried);
      hide Tries;
      hide NoneTried;
      if |hs| > 1 {
        TiredTries(us, ticket + 1, left - 1, after);
      } else {
        TryNone(us, ticket + 1, left - 1, after);
      }
    }
  }

  // Unit weights make it plain round-robin.
  lemma {:induction false} UnitTries(hs: seq<Target>, ticket: nat, left: nat, tried: set<string>)
    requires forall i :: 0 <= i < |hs| ==> hs[i].weight <= 1
    ensures Tries(hs, ticket, left, tried) == Rota.Tries(Entries(hs), ticket, left, tried)
    decreases left
  {
    hide TotalWeight;
    hide Share;
    hide FailedAt;
    hide FailAt;
    if left == 0 || hs == [] {
    } else {
      var k := ticket % |hs|;
      EqualWeights(hs, k);
      FailedEntries(hs, k);
      UnitTries(FailedAt(hs, k), ticket + 1, left - 1, tried + {hs[k].address});
    }
  }

  lemma FailedEntries(hs: seq<Target>, k: nat)
    requires k < |hs| && forall i :: 0 <= i < |hs| ==> hs[i].weight <= 1
    ensures var us := FailedAt(hs, k);
            && Entries(us) == FailAt(Entries(hs), k)
            && forall i :: 0 <= i < |us| ==> us[i].weight <= 1
  {
  }

  lemma RestedTries(hs: seq<Target>, ticket: nat, left: nat)
    requires Distinct(hs) && AllRested(hs) && FreshUnit(hs)
    ensures |Tries(hs, ticket, left, {})| == Least(left, |hs|)
  {
    UnitTries(hs, ticket, left, {});
    Rota.CompleteExactlyWhen(Entries(hs), left);
    hide Tries;
    hide Rota.Tries;
  }

  // How far weighted failover gets.

  // At most one attempt is in question. Or the fresh targets have unit weight, and, from three
  // attempts on, none of them meets the worn target after it.
  ghost predicate Settled(hs: seq<Target>, attempts: nat) {
    || Least(attempts, |hs|) <= 1
    || (FreshUnit(hs) && (Least(attempts, |hs|) <= 2 || NoneMeets(hs)))
  }

  lemma TriesAtMost(hs: seq<Target>, ticket: nat, left: nat)
    requires Distinct(hs)
    ensures |Tries(hs, ticket, left, {})| <= Least(left, |hs|)
  {
    var home := Homes(hs);
    TriesBounded(hs, ticket, left, {}, home);
    assert home - {} == home;
    hide Tries;
  }

  lemma OneTried(hs: seq<Target>, ticket: nat, left: nat)
    requires hs != [] && left > 0
    ensures |Tries(hs, ticket, left, {})| >= 1
  {
    hide At;
    TryFirst(hs, ticket, left, {}, At(hs, ticket));
  }

  lemma SettledReaches(hs: seq<Target>, ticket: nat, left: nat)
    requires Distinct(hs) && Settled(hs, left)
    requires Least(left, |hs|) <= 3 || AllEject(hs) || AllRested(hs)
    ensures |Tries(hs, ticket, left, {})| == Least(left, |hs|)
  {
    TriesAtMost(hs, ticket, left);
    if left == 0 || hs == [] {
    } else if Least(left, |hs|) == 1 {
      OneTried(hs, ticket, left);
    } else if Least(left, |hs|) == 2 {
      TwoTried(hs, ticket, left);
    } else if AllEject(hs) {
      TiredTries(hs, ticket, left, {});
    } else if AllRested(hs) {
      RestedTries(hs, ticket, left);
    } else {
      ThreeTried(hs, ticket, left);
    }
  }

  lemma UnsettledMisses(hs: seq<Target>, left: nat) returns (ticket: nat)
    requires Distinct(hs) && !Settled(hs, left)
    ensures ticket < TotalWeight(hs) * TotalWeight(hs)
    ensures |Tries(hs, ticket, left, {})| < Least(left, |hs|)
  {
    hide TotalWeight;
    hide Effective;
    hide Tries;
    hide Tired;
    hide Meets;
    if !FreshUnit(hs) {
      var i :| 0 <= i < |hs| && !Tired(hs[i]) && Effective(hs[i].weight) != 1;
      HeavyOnce(hs, i, left);
      ticket := TotalWeight(hs[..i]);
      BelowSquare(ticket, 0, TotalWeight(hs), 1);
    } else {
      var i :| 0 <= i < |hs| && Meets(hs, i);
      ticket := MeetsTwice(hs, i, left);
    }
  }

  lemma WeightedCount(w: World, ts: seq<Target>, ticket: nat, q: Req, max: nat)
    requires Silent(w) && AllDown(w) && Distinct(ts) && Replayable(q) && ticket + max < TWO_TO_64
    ensures |Handle(w, Pool(ts, WeightedRoundRobin, ticket), q, max).trace| == |Tries(Rotation(ts), ticket, max, {})|
  {
    WeightedHandleTries(w, Pool(ts, WeightedRoundRobin, ticket), q, max);
  }

  // With all backends down, weighted failover reaches as many as it may, from every ticket,
  // only if the rotation is settled; for up to three backends or attempts, and where wear is
  // even, exactly then.
  lemma WeightedCompleteExactlyWhen(w: World, ts: seq<Target>, q: Req, max: nat)
    requires Silent(w) && AllDown(w) && Distinct(ts) && Replayable(q)
    requires TotalWeight(Rotation(ts)) * TotalWeight(Rotation(ts)) + max <= TWO_TO_64
    ensures ReachesAll(w, ts, WeightedRoundRobin, q, max) ==> Settled(Rotation(ts), max)
    ensures var hs := Rotation(ts);
            Least(max, |hs|) <= 3 || AllEject(hs) || AllRested(hs) ==>
              (ReachesAll(w, ts, WeightedRoundRobin, q, max) <==> Settled(hs, max))
  {
    hide Rotation;
    hide Handle;
    hide Tries;
    hide Distinct;
    hide AllDown;
    hide Silent;
    hide Settled;
    hide AllEject;
    hide AllRested;
    hide TotalWeight;
    var hs := Rotation(ts);
    RotationDistinct(ts);
    if !Settled(hs, max) {
      var ticket := UnsettledMisses(hs, max);
      WeightedCount(w, ts, ticket, q, max);
    } else if Least(max, |hs|) <= 3 || AllEject(hs) || AllRested(hs) {
      forall ticket: nat | ticket + max < TWO_TO_64
        ensures |Handle(w, Pool(ts, WeightedRoundRobin, ticket), q, max).trace| == Least(max, |Rotation(ts)|)
      {
        WeightedCount(w, ts, ticket, q, max);
        SettledReaches(hs, ticket, max);
      }
    }
  }

  // With four attempts in question it is not enough: two fresh targets and two worn ones, of
  // which the first takes three of nine places with it, and a round of six comes back.

  function FourBackends(): seq<Target> {
    [Target("a", "a", 1, true, 0, 0, 0, 0), Target("b", "b", 1, true, 0, 0, 0, 0),
     Target("c", "c", 3, true, 0, 0, 0, 2), Target("d", "d", 4, true, 0, 0, 0, 2)]
  }

  lemma SumUpTo(hs: seq<Target>, n: nat, sum: nat)
    requires n < |hs| && TotalWeight(hs[..n]) == sum
    ensures TotalWeight(hs[..n + 1]) == sum + Effective(hs[n].weight)
  {
    TotalUpTo(hs, n);
  }

  lemma FourShares(hs: seq<Target>)
    requires |hs| == 4 && forall i :: 0 <= i < 4 ==> hs[i].weight == FourBackends()[i].weight
    ensures TotalWeight(hs) == 9 && At(hs, 9) == 0 && At(hs, 10) == 1 && At(hs, 11) == 2
    ensures TotalWeight(Others(hs, 2)) == 6 && At(Others(hs, 2), 12) == 0
  {
    hide TotalWeight;
    hide Share;
    assert TotalWeight(hs[..0]) == 0 by { NoWeight(hs[..0]); }
    SumUpTo(hs, 0, 0);
    SumUpTo(hs, 1, 1);
    SumUpTo(hs, 2, 2);
    SumUpTo(hs, 3, 5);
    assert hs[..4] == hs;
    ShareInterval(hs, 0, 0);
    ShareInterval(hs, 1, 1);
    ShareInterval(hs, 2, 2);
    WeightDropped(hs, 2);
    var vs := Others(hs, 2);
    assert TotalWeight(vs[..0]) == 0 by { NoWeight(vs[..0]); }
    ShareInterval(vs, 0, 0);
  }

  lemma NoWeight(hs: seq<Target>)
    requires hs == []
    ensures TotalWeight(hs) == 0
  {
  }

  lemma SettledNotEnough()
    ensures Distinct(FourBackends()) && Settled(FourBackends(), 4)
    ensures |Tries(FourBackends(), 9, 4, {})| == 3
  {
    hide TotalWeight;
    hide Tries;
    hide At;
    hide Gcd;
    var hs := FourBackends();
    FourShares(hs);
    assert Gcd(3, 6) == 3 by { ThreeOfSix(); }
    var us := FailedAt(hs, 0);
    FourShares(us);
    var vs := FailedAt(us, 1);
    FourShares(vs);
    var rest := FailedAt(vs, 2);
    assert rest == Others(vs, 2);
    TryFirst(hs, 9, 4, {}, 0);
    TryFirst(us, 10, 3, {} + {"a"}, 1);
    TryFirst(vs, 11, 2, {} + {"a"} + {"b"}, 2);
    TryNone(rest, 12, 1, {} + {"a"} + {"b"} + {"c"});
  }

  lemma ThreeOfSix()
    ensures Gcd(3, 6) == 3
  {
    assert Gcd(3, 6) == Gcd(6, 3) == Gcd(3, 0) == 3;
  }
}
