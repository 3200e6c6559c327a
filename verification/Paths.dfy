// Path normalisation and longest-prefix lookup in a plain map: the specification
// that the radix tree refines.
module Paths {
  import opened Options

  // normalizePath: force a leading slash, drop one trailing slash (except for root).
  function NormalizePath(path: string): (r: string)
    ensures r != "" && r[0] == '/'
  {
    var p := if "/" <= path then path else "/" + path;
    if |p| > 1 && p[|p| - 1] == '/' then p[..|p| - 1] else p
  }

  // The next three say what it yields for every path: a leading slash makes no difference,
  // a rooted path loses one trailing slash, and any other rooted path is left alone.

  lemma EmptyIsRoot()
    ensures NormalizePath("") == NormalizePath("/") == "/"
  {
  }

  lemma SlashAdded(p: string)
    requires !("/" <= p)
    ensures NormalizePath(p) == NormalizePath("/" + p)
  {
  }

  lemma SlashDropped(q: string)
    requires "/" <= q
    ensures NormalizePath(q + "/") == q
  {
    assert (q + "/")[..|q|] == q;
  }

  lemma FixedExactlyWhen(p: string)
    requires "/" <= p
    ensures NormalizePath(p) == p <==> |p| == 1 || p[|p| - 1] != '/'
  {
  }

  // The prefix q covers the request path p.
  predicate Covers(q: string, p: string) {
    || q == "" || q == "/"
    || (q[|q| - 1] != '/' && (if "/" <= q then q <= p else "/" + q <= p))
  }

  // Normalisation keeps a covered path covered.
  lemma CoversNormalized(q: string, p: string)
    requires Covers(q, p)
    ensures NormalizePath(NormalizePath(q)) <= NormalizePath(NormalizePath(p))
  {
    var rooted := if "/" <= q then q else "/" + q;
    if q == "" || q == "/" {
      EmptyIsRoot();
      StartsRooted(NormalizePath(p));
    } else {
      if !("/" <= q) {
        SlashAdded(q);
      }
      FixedExactlyWhen(rooted);
      StaysCovered(rooted, p);
      StaysCovered(rooted, NormalizePath(p));
      hide NormalizePath;
    }
  }

  lemma StartsRooted(p: string)
    ensures "/" <= NormalizePath(p)
  {
  }

  lemma StaysCovered(q: string, p: string)
    requires "/" <= q <= p && q[|q| - 1] != '/'
    ensures q <= NormalizePath(p)
  {
  }

  // The value at the longest key of m that is a prefix of p.
  function LongestMatch<V>(m: map<string, V>, p: string): Option<V> {
    if p in m then Some(m[p])
    else if p == "" then None
    else LongestMatch(m, p[..|p| - 1])
  }

  ghost predicate IsPrefixKey<V>(m: map<string, V>, p: string, k: string) {
    k in m && k <= p
  }

  ghost predicate IsLongestKey<V>(m: map<string, V>, p: string, k: string) {
    IsPrefixKey(m, p, k) && forall j :: IsPrefixKey(m, p, j) ==> |j| <= |k|
  }

  lemma {:induction false} LongestMatchIsLongest<V>(m: map<string, V>, p: string)
    ensures LongestMatch(m, p).None? <==> forall k :: !IsPrefixKey(m, p, k)
    ensures LongestMatch(m, p).Some? ==>
              exists k :: IsLongestKey(m, p, k) && LongestMatch(m, p).value == m[k]
  {
    if p in m {
      assert IsPrefixKey(m, p, p);
      assert IsLongestKey(m, p, p);
    } else if p == "" {
    } else {
      var q := p[..|p| - 1];
      LongestMatchIsLongest(m, q);
      forall k ensures IsPrefixKey(m, p, k) <==> IsPrefixKey(m, q, k) {
        if IsPrefixKey(m, p, k) {
          assert k != p;
          assert k <= q;
        }
      }
      if k :| IsLongestKey(m, q, k) && LongestMatch(m, q) == Some(m[k]) {
        assert IsLongestKey(m, p, k);
      }
    }
  }

  // The longest key determines the answer: two prefixes of p of the same length are equal.
  lemma LongestKeyDecides<V>(m: map<string, V>, p: string, k: string)
    requires IsLongestKey(m, p, k)
    ensures LongestMatch(m, p) == Some(m[k])
  {
    LongestMatchIsLongest(m, p);
    assert IsPrefixKey(m, p, k);
    var j :| IsLongestKey(m, p, j) && LongestMatch(m, p) == Some(m[j]);
    assert IsPrefixKey(m, p, j);
    assert |j| == |k| && j == p[..|j|] && k == p[..|k|];
  }
}
