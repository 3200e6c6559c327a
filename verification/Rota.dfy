// internal/router/router.go with internal/router/backend.go: how far round-robin failover
// gets when every attempt fails, as a matter of the rotation alone.
module Rota {
  import opened Arith
  import opened Targets

  // A target in rotation: where it is, and how many failures in a row it has had.
  datatype Entry = Entry(address: string, fails: int)

  function Entries(hs: seq<Target>): (r: seq<Entry>)
    ensures |r| == |hs| && forall i :: 0 <= i < |hs| ==> r[i] == Entry(hs[i].address, hs[i].consecFail)
  {
    seq(|hs|, i requires 0 <= i < |hs| => Entry(hs[i].address, hs[i].consecFail))
  }

  ghost predicate DistinctEntries(r: seq<Entry>) {
    forall i, j :: 0 <= i < j < |r| ==> r[i].address != r[j].address
  }

  // One more failure ejects a worn target, unless it is the last.
  predicate Worn(e: Entry) {
    e.fails + 1 >= PASSIVE_EJECT_THRESHOLD
  }

  function FailAt(r: seq<Entry>, k: nat): seq<Entry>
    requires k < |r|
  {
    if Worn(r[k]) && |r| > 1 then r[..k] + r[k + 1..]
    else r[k := Entry(r[k].address, r[k].fails + 1)]
  }

  // The addresses the retry loop tries, when it makes at most `left` attempts, nobody else
  // draws tickets, and each attempt fails: it stops at a backend it has tried before.
  function Tries(r: seq<Entry>, ticket: nat, left: nat, tried: set<string>): seq<string>
    decreases left
  {
    if left == 0 || r == [] then []
    else
      var k := ticket % |r|;
      if r[k].address in tried then []
      else [r[k].address] + Tries(FailAt(r, k), ticket + 1, left - 1, tried + {r[k].address})
  }

  // One attempt, at place k.
  lemma TryOne(r: seq<Entry>, ticket: nat, left: nat, tried: set<string>, k: nat)
    requires left > 0 && k < |r| && k == ticket % |r|
    ensures Tries(r, ticket, left, tried)
         == if r[k].address in tried then []
            else [r[k].address] + Tries(FailAt(r, k), ticket + 1, left - 1, tried + {r[k].address})
  {
  }

  function Least(a: nat, b: nat): nat {
    if a < b then a else b
  }

  predicate AllFresh(r: seq<Entry>) {
    forall i :: 0 <= i < |r| ==> !Worn(r[i])
  }

  predicate AllWorn(r: seq<Entry>) {
    forall i :: 0 <= i < |r| ==> Worn(r[i])
  }

  // A rotation nobody leaves.

  // The address d places after `from`, wrapping around.
  function Place(r: seq<Entry>, from: nat, d: nat): string
    requires r != []
  {
    r[(from + d) % |r|].address
  }

  // The addresses at t places in a row.
  function Stretch(r: seq<Entry>, from: nat, t: nat): set<string>
    requires r != []
  {
    if t == 0 then {} else Stretch(r, from, t - 1) + {Place(r, from, t - 1)}
  }

  lemma {:induction false} StretchHolds(r: seq<Entry>, from: nat, t: nat, a: string)
    requires r != []
    ensures a in Stretch(r, from, t) <==> exists d :: 0 <= d < t && Place(r, from, d) == a
  {
    if t == 0 {
    } else {
      StretchHolds(r, from, t - 1, a);
    }
  }

  lemma Apart(from: nat, d: nat, t: nat, n: nat)
    requires d < t < d + n
    ensures (from + d) % n != (from + t) % n
  {
    if (from + d) % n == (from + t) % n {
      ModEqual(from + d, from + t, n);
      SmallMod(t - d, n);
    }
  }

  // Fresh targets: nobody is ejected, so the tickets go round the rotation. The list s is
  // the rotation r after t attempts at consecutive places.
  ghost predicate GoneRound(r: seq<Entry>, s: seq<Entry>, from: nat, t: nat)
    requires r != []
  {
    && |s| == |r|
    && (forall i :: 0 <= i < |r| ==> s[i].address == r[i].address)
    && (forall i :: 0 <= i < |r| && r[i].address !in Stretch(r, from, t) ==> !Worn(s[i]))
  }

  lemma GoRound(r: seq<Entry>, s: seq<Entry>, from: nat, t: nat)
    requires r != [] && DistinctEntries(r) && t < |r| && GoneRound(r, s, from, t)
    ensures var k := (from + t) % |r|;
            && s[k].address !in Stretch(r, from, t)
            && Stretch(r, from, t + 1) == Stretch(r, from, t) + {s[k].address}
            && GoneRound(r, FailAt(s, k), from, t + 1)
  {
    FreshStep(r, from, t);
    var k := (from + t) % |r|;
    assert FailAt(s, k) == s[k := Entry(s[k].address, s[k].fails + 1)];
    hide FailAt;
    hide Worn;
  }

  // After a whole round the next ticket meets the first again.
  lemma RoundDone(r: seq<Entry>, s: seq<Entry>, from: nat, left: nat)
    requires r != [] && GoneRound(r, s, from, |r|)
    ensures Tries(s, from + |r|, left, Stretch(r, from, |r|)) == []
  {
    var n := |r|;
    ModPlus(from, n, 1);
    var a := Place(r, from, 0);
    StretchHolds(r, from, n, a);
    assert s[(from + n) % n].address == a;
    hide Stretch;
    hide FailAt;
  }

  lemma {:induction false} FreshTries(r: seq<Entry>, s: seq<Entry>, from: nat, t: nat, left: nat)
    requires r != [] && DistinctEntries(r) && t <= |r| && GoneRound(r, s, from, t)
    ensures |Tries(s, from + t, left, Stretch(r, from, t))| == Least(left, |r| - t)
    decreases left
  {
    hide FailAt;
    hide DistinctEntries;
    hide Stretch;
    if t == |r| {
      hide Tries;
      RoundDone(r, s, from, left);
    } else if left > 0 {
      assert |s| == |r|;
      hide GoneRound;
      var k := (from + t) % |r|;
      TryOne(s, from + t, left, Stretch(r, from, t), k);
      hide Tries;
      GoRound(r, s, from, t);
      FreshTries(r, FailAt(s, k), from, t + 1, left - 1);
    }
  }

  // The next place is not among those already taken.
  lemma FreshStep(r: seq<Entry>, from: nat, t: nat)
    requires r != [] && DistinctEntries(r) && t < |r|
    ensures Place(r, from, t) !in Stretch(r, from, t)
  {
    StretchHolds(r, from, t, Place(r, from, t));
    forall d | 0 <= d < t ensures Place(r, from, d) != Place(r, from, t) {
      Apart(from, d, t, |r|);
    }
  }

  // Worn targets: each leaves as it is tried, until the last.
  lemma {:induction false} WornTries(r: seq<Entry>, ticket: nat, left: nat, tried: set<string>)
    requires r != [] && DistinctEntries(r) && AllWorn(r)
    requires forall i :: 0 <= i < |r| ==> r[i].address !in tried
    ensures |Tries(r, ticket, left, tried)| == Least(left, |r|)
    decreases left
  {
    hide FailAt;
    hide DistinctEntries;
    hide AllWorn;
    if left == 0 {
    } else {
      var k := ticket % |r|;
      TryOne(r, ticket, left, tried, k);
      hide Tries;
      if |r| > 1 {
        Ejected(r, k, tried);
        WornTries(FailAt(r, k), ticket + 1, left - 1, tried + {r[k].address});
      } else {
        FailAtKeeps(r, k);
        AllTried(FailAt(r, k), ticket + 1, left - 1, tried + {r[k].address});
      }
    }
  }

  lemma Ejected(r: seq<Entry>, k: nat, tried: set<string>)
    requires |r| > 1 && k < |r| && DistinctEntries(r) && AllWorn(r)
    requires forall i :: 0 <= i < |r| ==> r[i].address !in tried
    ensures var s := FailAt(r, k);
            && |s| == |r| - 1 && DistinctEntries(s) && AllWorn(s)
            && forall i :: 0 <= i < |s| ==> s[i].address !in tried + {r[k].address}
  {
    hide Worn;
    var s := r[..k] + r[k + 1..];
    assert FailAt(r, k) == s;
    assert forall i :: 0 <= i < k ==> s[i] == r[i];
    assert forall i :: k <= i < |s| ==> s[i] == r[i + 1];
  }

  lemma FailAtKeeps(r: seq<Entry>, k: nat)
    requires k < |r|
    ensures FailAt(r, k) != []
    ensures forall i :: 0 <= i < |FailAt(r, k)| ==> exists j :: 0 <= j < |r| && r[j].address == FailAt(r, k)[i].address
  {
    var s := FailAt(r, k);
    forall i | 0 <= i < |s| ensures exists j :: 0 <= j < |r| && r[j].address == s[i].address {
      var j := if |s| < |r| && i >= k then i + 1 else i;
      assert r[j].address == s[i].address;
    }
  }

  // Nothing is tried once every address in rotation has been.
  lemma AllTried(r: seq<Entry>, ticket: nat, left: nat, tried: set<string>)
    requires forall i :: 0 <= i < |r| ==> r[i].address in tried
    ensures Tries(r, ticket, left, tried) == []
  {
  }

  // The second attempt goes elsewhere.
  lemma SecondDiffers(r: seq<Entry>, ticket: nat)
    requires DistinctEntries(r) && |r| >= 2
    ensures var k := ticket % |r|;
            var s := FailAt(r, k);
            s != [] && s[(ticket + 1) % |s|].address != r[k].address
  {
    var k := ticket % |r|;
    if !Worn(r[k]) {
      Apart(ticket, 0, 1, |r|);
    }
  }

  // A rotation of at most two is exhausted whoever is worn, and so are two attempts.
  lemma FewTries(r: seq<Entry>, ticket: nat, left: nat)
    requires DistinctEntries(r) && Least(left, |r|) <= 2
    ensures |Tries(r, ticket, left, {})| == Least(left, |r|)
  {
    if left > 0 && r != [] {
      var k := ticket % |r|;
      var s := FailAt(r, k);
      FailAtKeeps(r, k);
      var first := {r[k].address};
      if |r| == 1 {
        AllTried(s, ticket + 1, left - 1, {} + first);
      } else if left > 1 {
        SecondDiffers(r, ticket);
        var l := (ticket + 1) % |s|;
        if left > 2 {
          FailAtKeeps(s, l);
          AllTried(FailAt(s, l), ticket + 2, left - 2, {} + first + {s[l].address});
        }
      }
    }
  }

  // A fresh target followed by a worn one, in a rotation of at least three: some ticket
  // starts at the first, ejects the second, and lands on the first again.

  // How many rounds of n to add so that, two tickets on, a round of n - 1 stands at `back`.
  function Rounds(n: nat, i: nat, back: nat): (q: nat)
    requires n >= 3 && i < n && back < n - 1
    ensures q < n - 1
  {
    (back + 2 * (n - 1) - i - 2) % (n - 1)
  }

  lemma RoundsWork(n: nat, i: nat, back: nat)
    requires n >= 3 && i < n && back < n - 1
    ensures (i + 2 + n * Rounds(n, i, back)) % (n - 1) == back
  {
    var m, q := n - 1, Rounds(n, i, back);
    var x := back + 2 * m - i - 2;
    var d := x / m;
    assert x == d * m + q;
    assert i + 2 + q == back + (2 - d) * m by {
      assert (2 - d) * m == 2 * m - d * m;
    }
    ModPlus(back, m, 2 - d);
    SmallMod(back, m);
    assert n * q == q + q * m;
    ModPlus(i + 2 + q, m, q);
  }

  // Where the i-th of n is found once its successor has gone.
  function Back(n: nat, i: nat): (back: nat)
    requires n >= 3 && i < n
    ensures back < n - 1
  {
    if i == n - 1 then n - 2 else i
  }

  // Within this many tickets each pair of remainders by n and n - 1 occurs.
  function Pairs(n: nat): int {
    n * (n - 1)
  }

  function BadTicket(n: nat, i: nat): nat
    requires n >= 3 && i < n
  {
    i + n * Rounds(n, i, Back(n, i))
  }

  lemma BadTicketWorks(n: nat, i: nat)
    requires n >= 3 && i < n
    ensures BadTicket(n, i) % n == i && (BadTicket(n, i) + 1) % n == (i + 1) % n
    ensures (BadTicket(n, i) + 2) % (n - 1) == Back(n, i)
    ensures BadTicket(n, i) < Pairs(n)
  {
    var q := Rounds(n, i, Back(n, i));
    RoundsWork(n, i, Back(n, i));
    hide Rounds;
    hide Back;
    assert n * q == q * n;
    ModPlus(i, n, q);
    SmallMod(i, n);
    ModPlus(i + 1, n, q);
    InRound(n, i, q);
  }

  lemma InRound(n: nat, i: nat, q: nat)
    requires i < n && q < n - 1
    ensures i + n * q < n * (n - 1)
  {
    assert n * (q + 1) <= n * (n - 1) by {
      assert n * (n - 1 - (q + 1)) >= 0;
    }
  }

  // The three attempts: i stays, j is ejected, and i, now at place b, comes again.
  lemma ThirdRepeats(r: seq<Entry>, i: nat, j: nat, b: nat, ticket: nat, left: nat)
    requires DistinctEntries(r) && |r| >= 3 && left >= 3 && i < |r| && j < |r| && i != j
    requires !Worn(r[i]) && Worn(r[j]) && b == if i < j then i else i - 1
    requires ticket % |r| == i && (ticket + 1) % |r| == j && (ticket + 2) % (|r| - 1) == b
    ensures |Tries(r, ticket, left, {})| == 2
  {
    hide Tries;
    var s := r[i := Entry(r[i].address, r[i].fails + 1)];
    var u := s[..j] + s[j + 1..];
    assert FailAt(r, i) == s && FailAt(s, j) == u && u[b] == s[i];
    assert r[i].address != r[j].address;
    hide FailAt;
    hide DistinctEntries;
    hide Worn;
    TryOne(r, ticket, left, {}, i);
    TryOne(s, ticket + 1, left - 1, {} + {r[i].address}, j);
    TryOne(u, ticket + 2, left - 2, {} + {r[i].address} + {s[j].address}, b);
  }

  lemma MixedTries(r: seq<Entry>, i: nat, left: nat)
    requires DistinctEntries(r) && |r| >= 3 && left >= 3 && i < |r|
    requires !Worn(r[i]) && Worn(r[(i + 1) % |r|])
    ensures |Tries(r, BadTicket(|r|, i), left, {})| == 2
  {
    var n := |r|;
    BadTicketWorks(n, i);
    if i == n - 1 {
      ModUnique(i + 1, n, 1, 0);
    } else {
      SmallMod(i + 1, n);
    }
    var j := (i + 1) % n;
    assert Back(n, i) == if i < j then i else i - 1;
    hide BadTicket;
    hide Tries;
    ThirdRepeats(r, i, j, Back(n, i), BadTicket(n, i), left);
  }

  // In a rotation that is neither all fresh nor all worn a worn target follows a fresh one.
  lemma FreshBeforeWorn(r: seq<Entry>) returns (i: nat)
    requires !AllFresh(r) && !AllWorn(r)
    ensures i < |r| && !Worn(r[i]) && Worn(r[(i + 1) % |r|])
  {
    var n := |r|;
    i :| 0 <= i < n && !Worn(r[i]);
    var w :| 0 <= w < n && Worn(r[w]);
    ghost var steps := if i < w then w - i else w + n - i;
    while !Worn(r[(i + 1) % n])
      invariant i < n && !Worn(r[i])
      invariant 0 < steps && (i + steps == w || i + steps == w + n)
      decreases steps
    {
      if i + 1 == n {
        ModUnique(i + 1, n, 1, 0);
        i := 0;
      } else {
        SmallMod(i + 1, n);
        i := i + 1;
      }
      steps := steps - 1;
    }
  }

  // Some ticket of the first n * (n - 1) ends an uneven rotation after two attempts.
  lemma UnevenTicket(r: seq<Entry>, attempts: nat) returns (ticket: nat)
    requires DistinctEntries(r) && Least(attempts, |r|) > 2 && !AllFresh(r) && !AllWorn(r)
    ensures ticket < Pairs(|r|) && |Tries(r, ticket, attempts, {})| == 2
  {
    hide Tries;
    hide BadTicket;
    hide Pairs;
    var i := FreshBeforeWorn(r);
    hide AllFresh;
    hide AllWorn;
    BadTicketWorks(|r|, i);
    MixedTries(r, i, attempts);
    ticket := BadTicket(|r|, i);
  }

  // Does failover reach as many backends as it may, whatever ticket it starts from?
  ghost predicate Complete(r: seq<Entry>, attempts: nat) {
    forall ticket: nat :: |Tries(r, ticket, attempts, {})| == Least(attempts, |r|)
  }

  // It does exactly when it may try at most two, or no target in rotation is one failure
  // from ejection, or all of them are.
  lemma CompleteExactlyWhen(r: seq<Entry>, attempts: nat)
    requires DistinctEntries(r)
    ensures Complete(r, attempts) <==> Least(attempts, |r|) <= 2 || AllFresh(r) || AllWorn(r)
  {
    if Least(attempts, |r|) <= 2 {
      forall ticket: nat { FewTries(r, ticket, attempts); }
    } else if AllFresh(r) {
      forall ticket: nat ensures |Tries(r, ticket, attempts, {})| == Least(attempts, |r|) {
        FreshTries(r, r, ticket, 0, attempts);
      }
    } else if AllWorn(r) {
      forall ticket: nat ensures |Tries(r, ticket, attempts, {})| == Least(attempts, |r|) {
        WornTries(r, ticket, attempts, {});
      }
    } else {
      var ticket := UnevenTicket(r, attempts);
      assert |Tries(r, ticket, attempts, {})| != Least(attempts, |r|);
    }
  }

  // One failed attempt at a, as the pool sees it.
  function FailedAttempt(pool: seq<Target>, a: string): seq<Target> {
    Step(Step(Step(pool, RecordRequest(a)), CompleteRequest(a)), RecordFailure(a))
  }

  // A step that touches the i-th target, and keeps it in or out of rotation as `in` says.
  lemma StepAt(pool: seq<Target>, i: nat, op: Op, t: Target)
    requires Distinct(pool) && i < |pool| && !op.Remove? && !op.Add? && op.address == pool[i].address
    requires t == Touch(pool[i], op, HealthyCount(pool) > 1)
    ensures Step(pool, op) == pool[i := t] && Distinct(pool[i := t])
    ensures t.healthy == pool[i].healthy ==> HealthyCount(pool[i := t]) == HealthyCount(pool)
  {
    assert AddressIndex(pool, pool[i].address) == i;
    HealthyUpdate(pool, i, t);
  }

  // What a failed attempt makes of the target it was made at.
  function FailedTarget(t: Target, many: bool): Target {
    t.(requests := t.requests + 1, failures := t.failures + 1, consecFail := t.consecFail + 1,
       healthy := t.healthy && !(Worn(Entry(t.address, t.consecFail)) && many))
  }

  lemma FailedAttemptTarget(pool: seq<Target>, i: nat)
    requires Distinct(pool) && i < |pool|
    ensures var after := pool[i := FailedTarget(pool[i], HealthyCount(pool) > 1)];
            FailedAttempt(pool, pool[i].address) == after && Distinct(after)
  {
    hide Step;
    hide Distinct;
    hide HealthyCount;
    var t, many := pool[i], HealthyCount(pool) > 1;
    var t1 := Touch(t, RecordRequest(t.address), many);
    StepAt(pool, i, RecordRequest(t.address), t1);
    var t2 := Touch(t1, CompleteRequest(t.address), many);
    StepAt(pool[i := t1], i, CompleteRequest(t.address), t2);
    assert pool[i := t1][i := t2] == pool[i := t2];
    var t3 := Touch(t2, RecordFailure(t.address), many);
    StepAt(pool[i := t2], i, RecordFailure(t.address), t3);
    assert pool[i := t2][i := t3] == pool[i := t3];
    assert t3 == FailedTarget(t, many);
  }

  // In the rotation too only that target changes, or goes.
  lemma FailedAttemptTargets(pool: seq<Target>, k: nat)
    requires Distinct(pool) && k < |Rotation(pool)|
    ensures var hs := Rotation(pool);
            var after, t := FailedAttempt(pool, hs[k].address), FailedTarget(hs[k], |hs| > 1);
            && Distinct(after) && hs[k].healthy
            && Rotation(after) == hs[..k] + (if t.healthy then [t] else []) + hs[k + 1..]
  {
    RotationWithin(pool, k);
    var i :| 0 <= i < |pool| && pool[i] == Rotation(pool)[k] && pool[i].healthy;
    FailedAttemptTarget(pool, i);
    PlaceOf(pool, i, k);
    RotationCounts(pool);
    RotationAround(pool, i, FailedTarget(pool[i], HealthyCount(pool) > 1));
    hide Rotation;
    hide Distinct;
    hide FailedAttempt;
  }

  // It does to the rotation what FailAt says.
  lemma FailedAttemptRotation(pool: seq<Target>, k: nat)
    requires Distinct(pool) && k < |Rotation(pool)|
    ensures var after := FailedAttempt(pool, Rotation(pool)[k].address);
            Distinct(after) && Entries(Rotation(after)) == FailAt(Entries(Rotation(pool)), k)
  {
    hide Rotation;
    hide Distinct;
    hide FailedAttempt;
    hide FailAt;
    FailedAttemptTargets(pool, k);
    FailAtEntries(Rotation(pool), k);
  }

  // FailAt on targets.
  lemma FailAtEntries(hs: seq<Target>, k: nat)
    requires k < |hs| && hs[k].healthy
    ensures var t := FailedTarget(hs[k], |hs| > 1);
            Entries(hs[..k] + (if t.healthy then [t] else []) + hs[k + 1..]) == FailAt(Entries(hs), k)
  {
  }

  // The k-th in rotation splits it as it splits the pool.
  lemma PlaceOf(pool: seq<Target>, i: nat, k: nat)
    requires Distinct(pool) && i < |pool| && k < |Rotation(pool)| && pool[i] == Rotation(pool)[k] && pool[i].healthy
    ensures Rotation(pool)[..k] == Rotation(pool[..i]) && Rotation(pool)[k + 1..] == Rotation(pool[i + 1..])
  {
    PlaceInRotation(pool, i);
    RotationDistinct(pool);
    RotationAround(pool, i, pool[i]);
    assert pool[i := pool[i]] == pool;
    hide Rotation;
    SplitAt(Rotation(pool), k, Rotation(pool[..i]), Rotation(pool[i + 1..]), pool[i]);
  }

  // A list without duplicates splits in one way around an element.
  lemma SplitAt(hs: seq<Target>, k: nat, x: seq<Target>, y: seq<Target>, t: Target)
    requires Distinct(hs) && k < |hs| && hs[k] == t && hs == x + [t] + y
    ensures hs[..k] == x && hs[k + 1..] == y
  {
    assert hs[|x|] == t;
    assert |x| == k;
  }
}
