// internal/discovery/reconciler.go: the engine that mirrors running containers into a route sink.
module Discovery {
  import opened Options
  import opened Selection
  import opened Checking

  // What the labels of a container say; `tlsValid` stands for the checks on its TLS labels.
  datatype RouteConfig = RouteConfig(
    enabled: bool,
    host: string,
    path: string,
    port: int,
    address: string,
    weight: int,
    loadBalance: Strategy,
    check: Config,
    tlsValid: bool)

  datatype PortBinding = PortBinding(privatePort: int, publicPort: int)

  // One entry of the listing, with its parsed labels.
  datatype Container = Container(id: string, config: Option<RouteConfig>, ports: seq<PortBinding>)

  // The answer to an inspection, with the labels it carries.
  datatype Detail = Detail(ip: string, healthy: bool, running: bool, status: string, config: Option<RouteConfig>)

  datatype Info = Info(id: string, config: RouteConfig, address: string, healthy: bool)

  // RouteSink: the calls the engine makes.
  datatype SinkCall = AddRoute(info: Info) | RemoveRoute(id: string)

  function Digits(n: nat): string {
    if n < 10 then [(48 + n) as char] else Digits(n / 10) + [(48 + n % 10) as char]
  }

  function IntToStr(n: int): string {
    if n < 0 then "-" + Digits(-n) else Digits(n)
  }

  // detectPort: the private port of the first published binding.
  function DetectPort(ports: seq<PortBinding>): int {
    if ports == [] then 0 else if ports[0].publicPort > 0 then ports[0].privatePort else DetectPort(ports[1..])
  }

  function PortFor(c: Container, cfg: RouteConfig): int {
    var port := if cfg.port == 0 then DetectPort(c.ports) else cfg.port;
    if port == 0 then 80 else port
  }

  function BuildInfo(c: Container, d: Detail, cfg: RouteConfig): Info {
    Info(c.id, cfg,
         if cfg.address != "" then cfg.address else d.ip + ":" + IntToStr(PortFor(c, cfg)),
         d.healthy || (d.running && d.status != "unhealthy"))
  }

  // Changed looks at four fields only.
  predicate Changed(a: Info, b: Info) {
    || a.address != b.address
    || a.healthy != b.healthy
    || a.config.host != b.config.host
    || a.config.path != b.config.path
  }

  predicate ValidConfig(cfg: RouteConfig) {
    cfg.enabled ==>
      && cfg.host != ""
      && ':' !in cfg.host
      && (cfg.path == "" || cfg.path[0] == '/')
      && cfg.tlsValid
  }

  // What the sink holds after a series of calls.
  function Replay(calls: seq<SinkCall>): map<string, Info> {
    if calls == [] then map[]
    else
      var before := Replay(calls[..|calls| - 1]);
      match calls[|calls| - 1]
      case AddRoute(info) => before[info.id := info]
      case RemoveRoute(id) => before - {id}
  }

  // The container a listing entry stands for, if it is enabled and could be inspected.
  function Seen(c: Container, inspect: map<string, Detail>): Option<Info> {
    if c.config.Some? && c.config.value.enabled && c.id in inspect
    then Some(BuildInfo(c, inspect[c.id], c.config.value)) else None
  }

  predicate Fresh(m: map<string, Info>, info: Info) {
    info.id !in m || Changed(m[info.id], info)
  }

  // The first loop of Sync: take in what is new or changed.
  function Absorb(m: map<string, Info>, listed: seq<Container>, inspect: map<string, Detail>): map<string, Info> {
    if listed == [] then m
    else
      var before := Absorb(m, listed[..|listed| - 1], inspect);
      var seen := Seen(listed[|listed| - 1], inspect);
      if seen.Some? && Fresh(before, seen.value) then before[seen.value.id := seen.value] else before
  }

  function Ids(listed: seq<Container>): set<string> {
    set c | c in listed :: c.id
  }

  class Engine {
    var containers: map<string, Info>
    var calls: seq<SinkCall>

    constructor ()
      ensures containers == map[] && calls == []
    {
      containers, calls := map[], [];
    }

    // The sink mirrors the engine.
    ghost predicate Mirrors()
      reads this
    {
      Replay(calls) == containers
    }

    method Add(info: Info)
      modifies this
      ensures containers == old(containers)[info.id := info] && calls == old(calls) + [AddRoute(info)]
      ensures old(Mirrors()) ==> Mirrors()
    {
      containers := containers[info.id := info];
      calls := calls + [AddRoute(info)];
      assert calls[..|calls| - 1] == old(calls);
    }

    method Drop(id: string)
      modifies this
      ensures containers == old(containers) - {id} && calls == old(calls) + [RemoveRoute(id)]
      ensures old(Mirrors()) ==> Mirrors()
    {
      calls := calls + [RemoveRoute(id)];
      containers := containers - {id};
      assert calls[..|calls| - 1] == old(calls);
    }

    // Sync: reconcile with a full listing, or with nothing when the listing failed.
    method Sync(listing: Option<seq<Container>>, inspect: map<string, Detail>) returns (ok: bool)
      modifies this
      ensures old(Mirrors()) ==> Mirrors()
      ensures ok == listing.Some?
      ensures !ok ==> containers == old(containers) && calls == old(calls)
      ensures ok ==> containers == map id | id in Absorb(old(containers), listing.value, inspect) && id in Ids(listing.value)
                                     :: Absorb(old(containers), listing.value, inspect)[id]
      ensures ok && Settled(old(containers), listing.value, inspect) ==> calls == old(calls)
    {
      if listing.None? {
        return false;
      }
      TakeIn(listing.value, inspect);
      Sweep(Ids(listing.value));
      return true;
    }

    method TakeIn(listed: seq<Container>, inspect: map<string, Detail>)
      modifies this
      ensures old(Mirrors()) ==> Mirrors()
      ensures containers == Absorb(old(containers), listed, inspect)
      ensures (forall c :: c in listed && Seen(c, inspect).Some? ==> !Fresh(old(containers), Seen(c, inspect).value)) ==>
                calls == old(calls) && containers == old(containers)
    {
      for i := 0 to |listed|
        invariant old(Mirrors()) ==> Mirrors()
        invariant containers == Absorb(old(containers), listed[..i], inspect)
        invariant (forall c :: c in listed && Seen(c, inspect).Some? ==> !Fresh(old(containers), Seen(c, inspect).value)) ==>
                    calls == old(calls) && containers == old(containers)
      {
        assert listed[..i + 1][..i] == listed[..i];
        var c := listed[i];
        var config := c.config;
        if config.Some? && config.value.enabled {
          if c.id in inspect {
            var info := BuildInfo(c, inspect[c.id], config.value);
            if !(c.id in containers && !Changed(containers[c.id], info)) {
              Add(info);
            }
          }
        }
      }
      assert listed[..|listed|] == listed;
    }

    // The second loop of Sync: forget what is no longer listed.
    method Sweep(seen: set<string>)
      modifies this
      ensures old(Mirrors()) ==> Mirrors()
      ensures containers == map id | id in old(containers) && id in seen :: old(containers)[id]
      ensures old(containers).Keys <= seen ==> calls == old(calls)
    {
      var todo := containers.Keys;
      while todo != {}
        invariant todo <= containers.Keys <= old(containers).Keys
        invariant old(Mirrors()) ==> Mirrors()
        invariant forall id :: id in old(containers) ==> (id in containers <==> id in todo || id in seen)
        invariant forall id :: id in containers ==> containers[id] == old(containers)[id]
        invariant old(containers).Keys <= seen ==> calls == old(calls)
      {
        var id :| id in todo;
        todo := todo - {id};
        if id !in seen {
          Drop(id);
        }
      }
    }

    // onContainerStart: inspect answers None on an error.
    method OnContainerStart(id: string, detail: Option<Detail>)
      modifies this
      ensures old(Mirrors()) ==> Mirrors()
      ensures var seen := if detail.Some? then Started(id, detail.value) else None;
              containers == (if seen.Some? then old(containers)[id := seen.value] else old(containers))
              && calls == old(calls) + (if seen.Some? then [AddRoute(seen.value)] else [])
    {
      if detail.None? {
        return;
      }
      var d := detail.value;
      if d.config.None? || !d.config.value.enabled {
        return;
      }
      if !ValidConfig(d.config.value) {
        return;
      }
      var c := Container(id, d.config, []);
      Add(BuildInfo(c, d, d.config.value));
    }

    method OnContainerStop(id: string)
      modifies this
      ensures old(Mirrors()) ==> Mirrors()
      ensures containers == old(containers) - {id}
      ensures calls == old(calls) + if id in old(containers) then [RemoveRoute(id)] else []
    {
      if id in containers {
        Drop(id);
      }
    }
  }

  // What a start or health event makes of a container: its listing entry has no ports.
  function Started(id: string, d: Detail): Option<Info> {
    if d.config.Some? && d.config.value.enabled && ValidConfig(d.config.value)
    then Some(BuildInfo(Container(id, d.config, []), d, d.config.value)) else None
  }

  ghost predicate DistinctIds(listed: seq<Container>) {
    forall i, j :: 0 <= i < j < |listed| ==> listed[i].id != listed[j].id
  }

  // Nothing to do: every listed container is known and unchanged, and nothing else is known.
  ghost predicate Settled(m: map<string, Info>, listed: seq<Container>, inspect: map<string, Detail>) {
    && m.Keys <= Ids(listed)
    && forall c :: c in listed && Seen(c, inspect).Some? ==> !Fresh(m, Seen(c, inspect).value)
  }

  lemma {:induction false} AbsorbSeen(m: map<string, Info>, listed: seq<Container>, inspect: map<string, Detail>)
    requires DistinctIds(listed)
    ensures var n := Absorb(m, listed, inspect);
            && (forall i :: 0 <= i < |listed| ==>
                  var seen := Seen(listed[i], inspect);
                  if seen.Some? then listed[i].id in n && !Changed(n[listed[i].id], seen.value)
                  else Get(n, listed[i].id) == Get(m, listed[i].id))
            && (forall id :: id !in Ids(listed) ==> Get(n, id) == Get(m, id))
  {
    if listed == [] {
    } else {
      var last, before := listed[|listed| - 1], listed[..|listed| - 1];
      AbsorbSeen(m, before, inspect);
      assert forall i :: 0 <= i < |before| ==> before[i] == listed[i] && before[i].id in Ids(listed);
      assert last in listed && last.id !in Ids(before);
    }
  }

  // After the first loop every listed enabled container is known with its present address,
  // health, host and path; one that is disabled or could not be read is as it was.
  lemma AbsorbMatches(m: map<string, Info>, listed: seq<Container>, inspect: map<string, Detail>, i: nat)
    requires DistinctIds(listed) && i < |listed|
    ensures var n, c := Absorb(m, listed, inspect), listed[i];
            if c.config.Some? && c.config.value.enabled && c.id in inspect then
              var info := BuildInfo(c, inspect[c.id], c.config.value);
              && c.id in n && n[c.id].address == info.address && n[c.id].healthy == info.healthy
              && n[c.id].config.host == info.config.host && n[c.id].config.path == info.config.path
            else Get(n, c.id) == Get(m, c.id)
    ensures forall id :: id !in Ids(listed) ==> Get(Absorb(m, listed, inspect), id) == Get(m, id)
  {
    AbsorbSeen(m, listed, inspect);
    hide BuildInfo;
    hide Absorb;
  }

  // A second pass over the same listing finds nothing to do.
  lemma SyncSettles(m: map<string, Info>, listed: seq<Container>, inspect: map<string, Detail>)
    requires DistinctIds(listed)
    ensures var n := Absorb(m, listed, inspect);
            Settled(map id | id in n && id in Ids(listed) :: n[id], listed, inspect)
  {
    AbsorbSeen(m, listed, inspect);
    var n := Absorb(m, listed, inspect);
    var k := map id | id in n && id in Ids(listed) :: n[id];
    forall c | c in listed && Seen(c, inspect).Some? ensures !Fresh(k, Seen(c, inspect).value) {
      var i :| 0 <= i < |listed| && listed[i] == c;
      assert c.id in Ids(listed);
    }
  }

  // How a container becomes known: by a listing or by an event.

  // The number a decimal string denotes.
  function Decimal(s: string): int {
    if s == "" then 0 else Decimal(s[..|s| - 1]) * 10 + (s[|s| - 1] as int - '0' as int)
  }

  lemma {:induction false} DigitsRead(n: nat)
    ensures Digits(n) != "" && Decimal(Digits(n)) == n
    ensures forall i :: 0 <= i < |Digits(n)| ==> '0' <= Digits(n)[i] <= '9'
    ensures n > 0 ==> Digits(n)[0] != '0'
    decreases n
  {
    if n >= 10 {
      DigitsRead(n / 10);
      assert Digits(n)[..|Digits(n)| - 1] == Digits(n / 10);
    } else {
      assert Digits(n)[..0] == "";
    }
  }

  // Ports are written as they are read: in decimal digits without leading zeros.
  lemma WrittenAsRead(n: int)
    ensures var s := IntToStr(n);
            if n >= 0 then s == Digits(n) && Decimal(s) == n else s == "-" + Digits(-n) && -Decimal(s[1..]) == n
  {
    DigitsRead(if n < 0 then -n else n);
    if n < 0 {
      assert IntToStr(n)[1..] == Digits(-n);
    }
  }

  ghost predicate FirstPublished(ports: seq<PortBinding>, i: nat) {
    i < |ports| && ports[i].publicPort > 0 && forall j :: 0 <= j < i ==> ports[j].publicPort <= 0
  }

  lemma {:induction false} FirstPublishedPort(ports: seq<PortBinding>)
    ensures (forall i: nat :: FirstPublished(ports, i) ==> DetectPort(ports) == ports[i].privatePort)
    ensures (forall i :: 0 <= i < |ports| ==> ports[i].publicPort <= 0) ==> DetectPort(ports) == 0
  {
    if ports == [] {
    } else {
      FirstPublishedPort(ports[1..]);
      forall i: nat | FirstPublished(ports, i) ensures DetectPort(ports) == ports[i].privatePort {
        if i > 0 {
          assert forall j :: 0 <= j < i - 1 ==> ports[1..][j] == ports[j + 1];
          assert FirstPublished(ports[1..], i - 1);
        }
      }
    }
  }

  // Where a container is reached: at the labelled address; else at its own address, at the
  // labelled port, or the private port of the first published binding, or port 80.
  lemma ReachedAt(c: Container, d: Detail, cfg: RouteConfig)
    ensures var a := BuildInfo(c, d, cfg).address;
            && (cfg.address != "" ==> a == cfg.address)
            && (cfg.address == "" && cfg.port != 0 ==> a == d.ip + ":" + IntToStr(cfg.port))
            && (cfg.address == "" && cfg.port == 0 ==>
                  && (forall i: nat :: FirstPublished(c.ports, i) && c.ports[i].privatePort != 0 ==>
                        a == d.ip + ":" + IntToStr(c.ports[i].privatePort))
                  && ((forall i :: 0 <= i < |c.ports| ==> c.ports[i].publicPort <= 0) ==> a == d.ip + ":80"))
  {
    FirstPublishedPort(c.ports);
    assert IntToStr(80) == "80" by {
      assert Digits(80) == Digits(8) + ['0'];
    }
    hide IntToStr;
    hide DetectPort;
  }

  // When it counts as healthy: if its health check says so; without one, exactly if it runs;
  // and with one that says otherwise, not.
  lemma HealthyByReport(c: Container, d: Detail, cfg: RouteConfig)
    ensures var healthy := BuildInfo(c, d, cfg).healthy;
            && (d.healthy ==> healthy)
            && (!d.healthy && d.status == "unhealthy" ==> !healthy)
            && (!d.healthy && d.status != "unhealthy" ==> (healthy <==> d.running))
  {
    hide IntToStr;
  }

  lemma {:induction false} DigitsInjective(a: nat, b: nat)
    ensures Digits(a) == Digits(b) ==> a == b
    ensures |Digits(a)| > 0 && Digits(a)[0] != '-'
    decreases a
  {
    if a >= 10 {
      DigitsInjective(a / 10, b / 10);
    }
    if Digits(a) == Digits(b) {
      assert Digits(a)[|Digits(a)| - 1] == Digits(b)[|Digits(b)| - 1];
      if a >= 10 && b >= 10 {
        assert Digits(a)[..|Digits(a)| - 1] == Digits(a / 10);
        assert Digits(b)[..|Digits(b)| - 1] == Digits(b / 10);
      }
    }
  }

  lemma IntToStrInjective(a: int, b: int)
    requires IntToStr(a) == IntToStr(b)
    ensures a == b
  {
    DigitsInjective(if a < 0 then -a else a, if b < 0 then -b else b);
    DigitsInjective(if b < 0 then -b else b, 0);
    if a < 0 && b < 0 {
      assert IntToStr(a)[1..] == Digits(-a) && IntToStr(b)[1..] == Digits(-b);
    }
  }

  lemma ValidPathsAgree(c: Container, d: Detail)
    requires c.config.Some? && c.config.value.enabled && ValidConfig(c.config.value) && d.config == c.config
    ensures Started(c.id, d) == Seen(c, map[c.id := d]) <==>
              var cfg := c.config.value;
              cfg.address != "" || cfg.port != 0 || DetectPort(c.ports) in {0, 80}
  {
    var cfg := c.config.value;
    var started := Container(c.id, d.config, []);
    if cfg.address == "" && Started(c.id, d) == Seen(c, map[c.id := d]) {
      var prefix := d.ip + ":";
      assert (prefix + IntToStr(PortFor(c, cfg)))[|prefix|..] == IntToStr(PortFor(c, cfg));
      assert (prefix + IntToStr(PortFor(started, cfg)))[|prefix|..] == IntToStr(PortFor(started, cfg));
      IntToStrInjective(PortFor(c, cfg), PortFor(started, cfg));
    }
  }

  // Both paths make the same of an enabled container exactly when its configuration is valid,
  // and its labels give an address or a port, or it publishes none but port 80.
  lemma PathsAgreeExactlyWhen(c: Container, d: Detail)
    requires c.config.Some? && c.config.value.enabled && d.config == c.config
    ensures Started(c.id, d) == Seen(c, map[c.id := d]) <==>
              var cfg := c.config.value;
              && cfg.host != "" && ':' !in cfg.host && (cfg.path == "" || cfg.path[0] == '/') && cfg.tlsValid
              && (cfg.address != "" || cfg.port != 0 || DetectPort(c.ports) in {0, 80})
  {
    if ValidConfig(c.config.value) {
      ValidPathsAgree(c, d);
    }
  }
}
