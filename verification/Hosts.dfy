// internal/router/table.go: host normalisation, wildcard patterns and route keys.
module Hosts {
  import opened Paths

  // strings.LastIndex(s, ":")
  function LastColon(s: string): (i: int)
    ensures -1 <= i < |s|
    ensures i >= 0 ==> s[i] == ':'
    ensures forall j :: i < j < |s| ==> s[j] != ':'
  {
    if s == "" then -1 else if s[|s| - 1] == ':' then |s| - 1 else LastColon(s[..|s| - 1])
  }

  predicate IsSpace(c: char) {
    c in " \t\n\r" || c == 11 as char || c == 12 as char
  }

  function TrimSpace(s: string): string {
    if s == "" then ""
    else if IsSpace(s[0]) then TrimSpace(s[1..])
    else if IsSpace(s[|s| - 1]) then TrimSpace(s[..|s| - 1])
    else s
  }

  function ToLower(s: string): (r: string)
    ensures |r| == |s|
  {
    seq(|s|, i requires 0 <= i < |s| => if 'A' <= s[i] <= 'Z' then (s[i] as int + 32) as char else s[i])
  }

  function NormalizeHost(host: string): string {
    var i := LastColon(host);
    ToLower(TrimSpace(if i > 0 then host[..i] else host))
  }

  // What it yields.

  predicate SameLetter(c: char, d: char) {
    || c == d
    || ('A' <= c <= 'Z' && d as int == c as int + 32)
    || ('A' <= d <= 'Z' && c as int == d as int + 32)
  }

  // a and b differ in ASCII case only.
  ghost predicate SameLetters(a: string, b: string) {
    |a| == |b| && forall i :: 0 <= i < |a| ==> SameLetter(a[i], b[i])
  }

  lemma LowerExactlyWhen(a: string, b: string)
    ensures ToLower(a) == ToLower(b) <==> SameLetters(a, b)
  {
    var x, y := ToLower(a), ToLower(b);
    if SameLetters(a, b) {
      assert forall i :: 0 <= i < |a| ==> x[i] == y[i];
    } else if |a| == |b| {
      var i :| 0 <= i < |a| && !SameLetter(a[i], b[i]);
      assert x[i] != y[i];
    }
  }

  ghost predicate AllSpaces(s: string) {
    forall i :: 0 <= i < |s| ==> IsSpace(s[i])
  }

  predicate Bare(s: string) {
    s == "" || (!IsSpace(s[0]) && !IsSpace(s[|s| - 1]))
  }

  // Outer spaces go, and nothing else.
  lemma {:induction false} Trimmed(before: string, s: string, after: string)
    requires AllSpaces(before) && Bare(s) && AllSpaces(after)
    ensures TrimSpace(before + s + after) == s
    decreases |before| + |after|
  {
    hide IsSpace;
    var all := before + s + after;
    if before != [] {
      assert all[1..] == before[1..] + s + after;
      Trimmed(before[1..], s, after);
    } else if after != [] {
      if s == "" {
        assert all[1..] == "" + s + after[1..];
        Trimmed("", s, after[1..]);
      } else {
        assert all[0] == s[0];
        assert all[..|all| - 1] == before + s + after[..|after| - 1];
        Trimmed(before, s, after[..|after| - 1]);
      }
    } else {
      assert all == s;
    }
  }

  lemma {:induction false} TrimSame(a: string, b: string)
    requires SameLetters(a, b)
    ensures SameLetters(TrimSpace(a), TrimSpace(b))
  {
    if a == "" {
    } else {
      assert SameLetter(a[0], b[0]) && SameLetter(a[|a| - 1], b[|b| - 1]);
      if IsSpace(a[0]) {
        TrimSame(a[1..], b[1..]);
      } else if IsSpace(a[|a| - 1]) {
        TrimSame(a[..|a| - 1], b[..|b| - 1]);
      }
    }
  }

  lemma {:induction false} ColonAt(s: string, i: nat)
    requires i < |s| && s[i] == ':' && forall j :: i < j < |s| ==> s[j] != ':'
    ensures LastColon(s) == i
  {
  }

  // A host without a colon or outer spaces keeps its length; its capitals are lowered and
  // nothing else changes.
  lemma PlainHost(h: string)
    requires ':' !in h && Bare(h)
    ensures var r := NormalizeHost(h);
            |r| == |h| && forall i :: 0 <= i < |h| ==>
              if 'A' <= h[i] <= 'Z' then r[i] as int == h[i] as int + 32 else r[i] == h[i]
  {
    Trimmed("", h, "");
    assert "" + h + "" == h;
  }

  // A port makes no difference.
  lemma PortDropped(h: string, port: string)
    requires h != "" && ':' !in h && ':' !in port
    ensures NormalizeHost(h + ":" + port) == NormalizeHost(h)
  {
    var all := h + ":" + port;
    ColonAt(all, |h|);
    assert all[..|h|] == h;
  }

  // Nor do outer spaces.
  lemma SpacesDropped(before: string, h: string, after: string)
    requires ':' !in h && Bare(h) && AllSpaces(before) && AllSpaces(after)
    ensures NormalizeHost(before + h + after) == NormalizeHost(h)
  {
    var all := before + h + after;
    assert ':' !in before && ':' !in after;
    assert ':' !in all;
    Trimmed(before, h, after);
    Trimmed("", h, "");
    assert "" + h + "" == h;
    hide TrimSpace;
  }

  // The characters that count as spaces.
  lemma Spaces()
    ensures AllSpaces(" \t\n\r") && !IsSpace('.') && !IsSpace('-') && !IsSpace(':')
    ensures forall c :: 'a' <= c <= 'z' || 'A' <= c <= 'Z' || '0' <= c <= '9' ==> !IsSpace(c)
  {
  }

  // What the router makes of the Host header before it asks the table.
  function RequestHost(host: string): string {
    var i := LastColon(host);
    ToLower(if i > 0 then host[..i] else host)
  }

  // v is h in some casing, perhaps with a port.
  ghost predicate Names(v: string, h: string) {
    || SameLetters(v, h)
    || exists g, port :: WithPort(v, g, port) && SameLetters(g, h)
  }

  predicate WithPort(v: string, g: string, port: string) {
    v == g + ":" + port && ':' !in port
  }

  lemma SameNormalized(a: string, b: string)
    requires SameLetters(a, b) && ':' !in a
    ensures ':' !in b && NormalizeHost(a) == NormalizeHost(b)
    ensures RequestHost(a) == ToLower(a) && SameLetters(RequestHost(a), b)
  {
    assert forall i :: 0 <= i < |a| ==> SameLetter(a[i], b[i]) && a[i] != ':';
    TrimSame(a, b);
    LowerExactlyWhen(TrimSpace(a), TrimSpace(b));
    hide TrimSpace;
  }

  // However a request names the host, the table is asked for the same.
  lemma NamesNormalized(v: string, h: string)
    requires h != "" && ':' !in h && Names(v, h)
    ensures NormalizeHost(RequestHost(v)) == NormalizeHost(v) == NormalizeHost(h)
    ensures Names(RequestHost(v), h)
  {
    if SameLetters(v, h) {
      SameNormalized(h, v);
      SameNormalized(v, h);
      assert SameLetters(RequestHost(v), h);
      SameNormalized(RequestHost(v), h);
    } else {
      var g, port :| WithPort(v, g, port) && SameLetters(g, h);
      SameNormalized(h, g);
      SameNormalized(g, h);
      PortDropped(g, port);
      ColonAt(v, |g|);
      assert v[..|g|] == g && RequestHost(v) == RequestHost(g);
      SameNormalized(RequestHost(g), h);
    }
  }

  predicate IsWildcard(host: string) {
    "*." <= host
  }

  predicate HasSuffix(s: string, suffix: string) {
    |suffix| <= |s| && s[|s| - |suffix|..] == suffix
  }

  predicate WildcardMatch(pattern: string, host: string) {
    && IsWildcard(pattern)
    && (host == pattern[2..] || (HasSuffix(host, pattern[1..]) && |host| > |pattern| - 1))
  }

  // "*.d" matches the bare domain d and its proper subdomains at a dot boundary, nothing else.
  lemma WildcardMeaning(domain: string, host: string)
    ensures WildcardMatch("*." + domain, host) <==>
              host == domain || exists sub: string :: sub != "" && host == sub + "." + domain
  {
    var pattern := "*." + domain;
    assert pattern[1..] == "." + domain && pattern[2..] == domain;
    if HasSuffix(host, "." + domain) && |host| > |domain| + 1 {
      var sub := host[..|host| - |domain| - 1];
      assert host == sub + ("." + domain);
      assert host == sub + "." + domain;
    }
    if sub: string :| sub != "" && host == sub + "." + domain {
      assert host[|host| - |domain| - 1..] == "." + domain;
    }
  }

  // Any other pattern matches nothing.
  lemma OnlyDotted(pattern: string, host: string)
    requires !("*." <= pattern)
    ensures !IsWildcard(pattern) && !WildcardMatch(pattern, host)
  {
  }

  // RouteKey: the identity of a route.
  function RouteKey(host: string, path: string): string {
    NormalizeHost(host) + "|" + NormalizePath(path)
  }

  // Normalising twice is normalising once.
  predicate Clean(path: string) {
    NormalizePath(NormalizePath(path)) == NormalizePath(path)
  }

  lemma EndsDoubled(path: string)
    requires |path| >= 2
    ensures HasSuffix(path, "//") <==> path[|path| - 2] == path[|path| - 1] == '/'
  {
    assert path[|path| - 2..] == [path[|path| - 2], path[|path| - 1]];
  }

  // One trailing slash is dropped per pass, so only a doubled one survives the first.
  lemma CleanExactlyWhen(path: string)
    ensures Clean(path) <==> !(|path| >= 3 && HasSuffix(path, "//"))
  {
    var rooted := if "/" <= path then path else "/" + path;
    assert rooted[0] == '/';
    var n := |rooted|;
    if |path| >= 2 {
      EndsDoubled(path);
      assert rooted[n - 1] == path[|path| - 1] && rooted[n - 2] == path[|path| - 2];
    }
    FixedExactlyWhen(NormalizePath(path));
    hide HasSuffix;
    if n > 1 && rooted[n - 1] == '/' {
      assert NormalizePath(path) == rooted[..n - 1];
    } else {
      assert NormalizePath(path) == rooted;
    }
    hide NormalizePath;
  }

  // Where the trees keep a route: its path is normalised again by the tree.
  datatype Slot = Slot(host: string, path: string)

  function SlotAt(host: string, path: string): Slot {
    Slot(NormalizeHost(host), NormalizePath(NormalizePath(path)))
  }

  // For clean prefixes the slot determines the key.
  lemma SlotDeterminesKey(h1: string, p1: string, h2: string, p2: string)
    requires Clean(p1) && Clean(p2) && SlotAt(h1, p1) == SlotAt(h2, p2)
    ensures RouteKey(h1, p1) == RouteKey(h2, p2)
  {
  }

  // A longer host of the two that share a key holds the separator.
  lemma LongerHolds(a: string, x: string, b: string, y: string)
    requires a + "|" + x == b + "|" + y && |b| < |a|
    ensures '|' in a
  {
    assert a[|b|] == (a + "|" + x)[|b|] == (b + "|" + y)[|b|];
  }

  // Equal keys mean equal slots exactly when the hosts are equally long, so always when
  // neither holds the separator.
  lemma KeyDeterminesSlot(h1: string, p1: string, h2: string, p2: string)
    requires RouteKey(h1, p1) == RouteKey(h2, p2)
    ensures SlotAt(h1, p1) == SlotAt(h2, p2) <==> |NormalizeHost(h1)| == |NormalizeHost(h2)|
    ensures '|' !in NormalizeHost(h1) && '|' !in NormalizeHost(h2) ==> SlotAt(h1, p1) == SlotAt(h2, p2)
  {
    var a, b := NormalizeHost(h1), NormalizeHost(h2);
    var k := RouteKey(h1, p1);
    hide NormalizeHost;
    hide NormalizePath;
    if |a| == |b| {
      assert a == k[..|a|] == b;
      assert k[|a| + 1..] == NormalizePath(p1) == NormalizePath(p2);
    } else if |b| < |a| {
      LongerHolds(a, NormalizePath(p1), b, NormalizePath(p2));
    } else {
      LongerHolds(b, NormalizePath(p2), a, NormalizePath(p1));
    }
  }

  // With the separator in a host two slots can share a key.
  lemma SeparatorInHost()
    ensures RouteKey("a|/b", "/c") == RouteKey("a", "/b|/c") && SlotAt("a|/b", "/c") != SlotAt("a", "/b|/c")
  {
    assert LastColon("a|/b") == -1 && LastColon("a") == -1;
    assert TrimSpace("a|/b") == "a|/b" && TrimSpace("a") == "a";
    assert ToLower("a|/b") == "a|/b" && ToLower("a") == "a";
    assert NormalizePath("/c") == "/c" && NormalizePath("/b|/c") == "/b|/c";
    assert "a|/b" + "|" + "/c" == "a" + "|" + "/b|/c";
  }
}
