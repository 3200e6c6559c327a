// internal/router/backend.go: how a ticket of the round-robin counter becomes a choice.
module Selection {
  import opened Arith
  import opened Targets

  datatype Strategy = RoundRobin | Random | IPHash | LeastConn | WeightedRoundRobin

  const TWO_TO_64 := 0x1_0000_0000_0000_0000
  const MAX_INT_64 := 0x7FFF_FFFF_FFFF_FFFF

  function Effective(weight: int): (w: nat)
    ensures w >= 1
  {
    if weight <= 0 then 1 else weight
  }

  function TotalWeight(hs: seq<Target>): (w: nat)
    ensures w >= |hs|
  {
    if hs == [] then 0 else Effective(hs[0].weight) + TotalWeight(hs[1..])
  }

  // The target whose share of [0, TotalWeight) holds pos: shares lie end to end.
  function Share(hs: seq<Target>, pos: nat): (i: nat)
    requires pos < TotalWeight(hs)
    ensures i < |hs|
  {
    if pos < Effective(hs[0].weight) then 0 else 1 + Share(hs[1..], pos - Effective(hs[0].weight))
  }

  lemma {:induction false} TotalSplit(a: seq<Target>, b: seq<Target>)
    ensures TotalWeight(a + b) == TotalWeight(a) + TotalWeight(b)
  {
    if a == [] {
      assert a + b == b;
    } else {
      assert (a + b)[1..] == a[1..] + b;
      TotalSplit(a[1..], b);
    }
  }

  lemma TotalUpTo(hs: seq<Target>, i: nat)
    requires i < |hs|
    ensures TotalWeight(hs[..i + 1]) == TotalWeight(hs[..i]) + Effective(hs[i].weight)
  {
    assert hs[..i + 1] == hs[..i] + [hs[i]];
    TotalSplit(hs[..i], [hs[i]]);
    assert TotalWeight([hs[i]][1..]) == 0;
  }

  lemma {:induction false} ShareInterval(hs: seq<Target>, pos: nat, i: nat)
    requires pos < TotalWeight(hs) && i < |hs|
    ensures Share(hs, pos) == i <==> TotalWeight(hs[..i]) <= pos < TotalWeight(hs[..i]) + Effective(hs[i].weight)
  {
    if i == 0 {
    } else {
      assert hs[..i][1..] == hs[1..][..i - 1];
      if pos >= Effective(hs[0].weight) {
        ShareInterval(hs[1..], pos - Effective(hs[0].weight), i - 1);
      }
    }
  }

  // How many of the tickets first, first + 1, ..., first + n - 1 pick the i-th target.
  function Picks(hs: seq<Target>, i: nat, first: nat, n: nat): nat
    requires hs != []
  {
    if n == 0 then 0
    else Picks(hs, i, first, n - 1) + (if Share(hs, (first + n - 1) % TotalWeight(hs)) == i then 1 else 0)
  }

  // Within the first cycle, the tickets below n that pick i are those in its share.
  lemma {:induction false} FirstCycle(hs: seq<Target>, i: nat, n: nat)
    requires i < |hs| && n <= TotalWeight(hs)
    ensures Picks(hs, i, 0, n) ==
              var lo := TotalWeight(hs[..i]);
              var w := Effective(hs[i].weight);
              if n <= lo then 0 else if n <= lo + w then n - lo else w
  {
    if n == 0 {
    } else {
      FirstCycle(hs, i, n - 1);
      ShareInterval(hs, n - 1, i);
      SmallMod(n - 1, TotalWeight(hs));
    }
  }

  lemma {:induction false} PicksFront(hs: seq<Target>, i: nat, first: nat, n: nat)
    requires hs != []
    ensures Picks(hs, i, first, n + 1) ==
              (if Share(hs, first % TotalWeight(hs)) == i then 1 else 0) + Picks(hs, i, first + 1, n)
  {
    if n == 0 {
    } else {
      PicksFront(hs, i, first, n - 1);
      assert first + n == (first + 1) + n - 1;
    }
  }

  // Any TotalWeight consecutive tickets pick each target exactly its weight of times.
  lemma {:induction false} FairWindow(hs: seq<Target>, i: nat, first: nat)
    requires i < |hs|
    ensures Picks(hs, i, first, TotalWeight(hs)) == Effective(hs[i].weight)
  {
    var w := TotalWeight(hs);
    if first == 0 {
      assert hs == hs[..i] + hs[i..];
      TotalSplit(hs[..i], hs[i..]);
      FirstCycle(hs, i, w);
    } else {
      FairWindow(hs, i, first - 1);
      PicksFront(hs, i, first - 1, w - 1);
      ModPlus(first - 1, w, 1);
      assert first + w - 1 == first - 1 + w;
    }
  }

  // In the declared weights: a weight that is not positive counts as one.

  function DeclaredSum(hs: seq<Target>): (w: nat)
    ensures w >= |hs|
  {
    if hs == [] then 0 else (if hs[0].weight > 0 then hs[0].weight else 1) + DeclaredSum(hs[1..])
  }

  lemma {:induction false} CycleLength(hs: seq<Target>)
    ensures TotalWeight(hs) == DeclaredSum(hs)
  {
    if hs == [] {
    } else {
      CycleLength(hs[1..]);
    }
  }

  // Of as many tickets in a row as the weights sum up to, each target gets its weight.
  lemma DeclaredShares(hs: seq<Target>, i: nat, first: nat)
    requires i < |hs|
    ensures Picks(hs, i, first, DeclaredSum(hs)) == if hs[i].weight > 0 then hs[i].weight else 1
  {
    CycleLength(hs);
    FairWindow(hs, i, first);
  }

  // So over a whole cycle targets are picked in proportion to their weights.
  lemma Proportional(hs: seq<Target>, i: nat, j: nat, first: nat)
    requires i < |hs| && j < |hs| && hs[i].weight > 0 && hs[j].weight > 0
    ensures var n := DeclaredSum(hs);
            Picks(hs, i, first, n) * hs[j].weight == Picks(hs, j, first, n) * hs[i].weight
  {
    DeclaredShares(hs, i, first);
    DeclaredShares(hs, j, first);
    hide Picks;
    hide DeclaredSum;
  }

  lemma {:induction false} PicksSplit(hs: seq<Target>, i: nat, first: nat, n: nat, m: nat)
    requires hs != []
    ensures Picks(hs, i, first, n + m) == Picks(hs, i, first, n) + Picks(hs, i, first + n, m)
  {
    if m == 0 {
    } else {
      PicksSplit(hs, i, first, n, m - 1);
      assert first + (n + m) - 1 == (first + n) + m - 1;
    }
  }

  lemma {:induction false} PicksAtMost(hs: seq<Target>, i: nat, first: nat, n: nat)
    requires i < |hs| && n <= TotalWeight(hs)
    ensures Picks(hs, i, first, n) <= Effective(hs[i].weight)
  {
    PicksSplit(hs, i, first, n, TotalWeight(hs) - n);
    FairWindow(hs, i, first);
  }

  lemma Distribute(k: int, w: int)
    ensures k * w == (k - 1) * w + w && (k + 1) * w == k * w + w
  {
  }

  lemma {:induction false} FairCycles(hs: seq<Target>, i: nat, first: nat, cycles: nat)
    requires i < |hs|
    ensures cycles * TotalWeight(hs) >= 0
    ensures Picks(hs, i, first, cycles * TotalWeight(hs)) == cycles * Effective(hs[i].weight)
  {
    var w := TotalWeight(hs);
    if cycles == 0 {
    } else {
      Distribute(cycles, w);
      Distribute(cycles, Effective(hs[i].weight));
      FairCycles(hs, i, first, cycles - 1);
      PicksSplit(hs, i, first, (cycles - 1) * w, w);
      FairWindow(hs, i, first + (cycles - 1) * w);
    }
  }

  lemma FairShares(hs: seq<Target>, i: nat, first: nat, n: nat)
    requires i < |hs|
    ensures var w, e := TotalWeight(hs), Effective(hs[i].weight);
            (n / w) * e <= Picks(hs, i, first, n) <= (if n % w == 0 then n / w else n / w + 1) * e
  {
    var w, e := TotalWeight(hs), Effective(hs[i].weight);
    var q, r := n / w, n % w;
    assert n == q * w + r;
    PicksNone(hs, i, first + q * w);
    hide Picks;
    hide TotalWeight;
    hide Effective;
    FairCycles(hs, i, first, q);
    PicksSplit(hs, i, first, q * w, r);
    PicksAtMost(hs, i, first + q * w, r);
    Distribute(q, e);
  }

  // Any n tickets give a target between floor(n / W) and ceil(n / W) times its weight.
  lemma Fair(hs: seq<Target>, i: nat, first: nat, n: nat)
    requires i < |hs|
    ensures var w, e := DeclaredSum(hs), if hs[i].weight > 0 then hs[i].weight else 1;
            (n / w) * e <= Picks(hs, i, first, n) <= (if n % w == 0 then n / w else n / w + 1) * e
  {
    hide Picks;
    hide TotalWeight;
    hide DeclaredSum;
    CycleLength(hs);
    FairShares(hs, i, first, n);
    assert Effective(hs[i].weight) == if hs[i].weight > 0 then hs[i].weight else 1;
    hide Effective;
  }

  lemma PicksNone(hs: seq<Target>, i: nat, first: nat)
    requires hs != []
    ensures Picks(hs, i, first, 0) == 0
  {
  }

  // Plain round-robin is the case in which no target declares a weight above one.
  lemma {:induction false} EqualWeights(hs: seq<Target>, pos: nat)
    requires forall i :: 0 <= i < |hs| ==> hs[i].weight <= 1
    requires pos < |hs|
    ensures TotalWeight(hs) == |hs| && Share(hs, pos) == pos
  {
    if |hs| == 1 {
      assert TotalWeight(hs[1..]) == 0;
    } else {
      EqualWeights(hs[1..], if pos == 0 then 0 else pos - 1);
    }
  }

  // hash*31 + c over the client address, in 64 bits.
  function AddressHash(ip: string): (h: nat)
    ensures h < TWO_TO_64
  {
    if ip == "" then 0 else (AddressHash(ip[..|ip| - 1]) * 31 + ip[|ip| - 1] as int) % TWO_TO_64
  }

  // It is a polynomial in 31: how two parts make up the whole, and what one character gives.

  function Wrap(x: nat): nat {
    x % 0x1_0000_0000_0000_0000
  }

  function Power31(n: nat): nat {
    if n == 0 then 1 else Power31(n - 1) * 31
  }

  lemma ReduceLater(x: nat, y: nat)
    ensures (x % TWO_TO_64 + y) % TWO_TO_64 == (x + y) % TWO_TO_64
    ensures (x % TWO_TO_64 * 31 + y) % TWO_TO_64 == (x * 31 + y) % TWO_TO_64
  {
    var q := x / TWO_TO_64;
    assert x == q * TWO_TO_64 + x % TWO_TO_64;
    ModPlus(x % TWO_TO_64 + y, TWO_TO_64, q);
    ModPlus(x % TWO_TO_64 * 31 + y, TWO_TO_64, 31 * q);
  }

  lemma HashNext(a: string, c: char)
    ensures AddressHash(a + [c]) == Wrap(AddressHash(a) * 31 + c as int)
  {
    assert (a + [c])[..|a|] == a;
  }

  lemma {:induction false} HashOfParts(a: string, b: string)
    ensures AddressHash(a + b) == Wrap(AddressHash(a) * Power31(|b|) + AddressHash(b))
  {
    if b == "" {
      assert a + b == a;
      SmallMod(AddressHash(a), TWO_TO_64);
    } else {
      hide AddressHash;
      hide Wrap;
      var n := |b| - 1;
      var before, c := b[..n], b[n];
      assert a + b == a + before + [c] && b == before + [c];
      HashOfParts(a, before);
      HashNext(a + before, c);
      HashNext(before, c);
      Regroup(AddressHash(a), Power31(n), AddressHash(before), c as int);
    }
  }

  lemma Regroup(x: nat, p: nat, y: nat, c: nat)
    ensures Wrap(Wrap(x * p + y) * 31 + c) == Wrap(x * (p * 31) + Wrap(y * 31 + c))
  {
    ReduceLater(x * p + y, c);
    Grouped(x, p, 31);
    Spread(x * p, y, 31);
    ReduceLater(y * 31 + c, x * (p * 31));
  }

  lemma HashOfOne(c: char)
    ensures AddressHash([c]) == c as int
  {
    assert [c][..0] == "";
  }

  // Two addresses that differ in the last character hash differently.
  lemma LastCharacterCounts(a: string, c: char, d: char)
    requires AddressHash(a + [c]) == AddressHash(a + [d])
    ensures c == d
  {
    HashNext(a, c);
    HashNext(a, d);
    hide AddressHash;
    var (lo, hi) := if c as int <= d as int then (c as int, d as int) else (d as int, c as int);
    NearApart(AddressHash(a) * 31, lo, hi);
  }

  lemma NearApart(x: nat, lo: nat, hi: nat)
    requires lo <= hi < TWO_TO_64 && Wrap(x + lo) == Wrap(x + hi)
    ensures lo == hi
  {
    ModEqual(x + lo, x + hi, TWO_TO_64);
    SmallMod(hi - lo, TWO_TO_64);
  }

  // Position of the first target with the fewest connections; None if every count
  // has reached the largest 64-bit integer.
  ghost predicate IsLeastConn(hs: seq<Target>, choice: int) {
    if choice < 0 then forall i :: 0 <= i < |hs| ==> hs[i].activeConns >= MAX_INT_64
    else
      && choice < |hs|
      && hs[choice].activeConns < MAX_INT_64
      && (forall i :: 0 <= i < |hs| ==> hs[choice].activeConns <= hs[i].activeConns)
      && (forall i :: 0 <= i < choice ==> hs[choice].activeConns < hs[i].activeConns)
  }

  predicate TakesTicket(s: Strategy, ip: string) {
    s.RoundRobin? || s.WeightedRoundRobin? || (s.IPHash? && ip == "")
  }

  // Which of the healthy targets hs is chosen (-1 for none); `draw` is the random source.
  ghost predicate Chooses(s: Strategy, hs: seq<Target>, ticket: nat, ip: string, draw: nat, choice: int)
    requires hs != []
  {
    match s
    case RoundRobin => choice == ticket % |hs|
    case Random => choice == draw % |hs|
    case IPHash => choice == (if ip == "" then ticket else AddressHash(ip)) % |hs|
    case LeastConn => IsLeastConn(hs, choice)
    case WeightedRoundRobin => choice == Share(hs, ticket % TotalWeight(hs))
  }

  // By plain round-robin as many tickets in a row as there are targets choose each of them,
  // and a random draw can choose any.
  lemma EachInTurn(hs: seq<Target>, first: nat, ip: string, draw: nat, k: nat) returns (d: nat)
    requires k < |hs|
    ensures d < |hs| && Chooses(RoundRobin, hs, first + d, ip, draw, k)
    ensures Chooses(IPHash, hs, first + d, "", draw, k)
    ensures Chooses(Random, hs, first, ip, k, k) && !TakesTicket(Random, ip)
  {
    var n := |hs|;
    var r := first % n;
    d := if k >= r then k - r else k + n - r;
    assert first == (first / n) * n + r;
    ModUnique(first + d, n, if k >= r then first / n else first / n + 1, k);
    SmallMod(k, n);
  }

  // By client address each target is somebody's, whatever the ticket.
  lemma SomebodysChoice(hs: seq<Target>, ticket: nat, draw: nat, k: nat)
    requires k < |hs| && k < 128
    ensures Chooses(IPHash, hs, ticket, [k as char], draw, k) && !TakesTicket(IPHash, [k as char])
  {
    HashOfOne(k as char);
    SmallMod(k, |hs|);
  }

  // By fewest connections somebody is chosen as long as one count is below the largest 64-bit
  // integer, and nobody has fewer.
  lemma FewestConnections(hs: seq<Target>, ticket: nat, ip: string, draw: nat, c: int)
    requires hs != [] && Chooses(LeastConn, hs, ticket, ip, draw, c)
    ensures c >= 0 <==> exists i :: 0 <= i < |hs| && hs[i].activeConns < 9223372036854775807
    ensures c >= 0 ==> c < |hs| && forall i :: 0 <= i < |hs| ==> hs[c].activeConns <= hs[i].activeConns
    ensures !TakesTicket(LeastConn, ip)
  {
    if c < 0 {
      assert forall i :: 0 <= i < |hs| ==> hs[i].activeConns >= MAX_INT_64;
    } else {
      assert hs[c].activeConns < MAX_INT_64;
    }
  }
}
