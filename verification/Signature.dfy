// internal/tls/acme.go: from a DER Ecdsa-Sig-Value (section 2.2.3 of RFC 3279) to the
// fixed-width R || S of ES256 (section 3.4 of RFC 7518).
module Signature {
  import opened Options
  import opened Arith

  newtype byte = x: int | 0 <= x < 256

  // A Go slice: a window of len bytes, extensible up to cap, into a shared array.
  datatype Slice = Slice(arr: array<byte>, off: nat, len: nat, cap: nat)

  predicate Fits(s: Slice) {
    s.len <= s.cap && s.off + s.cap <= s.arr.Length
  }

  function Content(s: Slice): (c: seq<byte>)
    requires Fits(s)
    reads s.arr
    ensures |c| == s.len
  {
    s.arr[s.off..s.off + s.len]
  }

  // s[from:to], which keeps the rest of the array within reach.
  function Sub(s: Slice, from: nat, to: nat): (t: Slice)
    requires Fits(s) && from <= to <= s.len
    ensures Fits(t)
  {
    Slice(s.arr, s.off + from, to - from, s.cap - from)
  }

  lemma SubContent(s: Slice, from: nat, to: nat)
    requires Fits(s) && from <= to <= s.len
    ensures Content(Sub(s, from, to)) == Content(s)[from..to]
  {
    var t := Sub(s, from, to);
    forall k | 0 <= k < t.len ensures Content(t)[k] == Content(s)[from..to][k] {
      assert Content(t)[k] == s.arr[s.off + from + k] == Content(s)[from + k];
    }
  }

  function Zeros(n: nat): (z: seq<byte>)
    ensures |z| == n && forall i :: 0 <= i < n ==> z[i] == 0
  {
    seq(n, i => 0)
  }

  // Keep the low-order bytes, or fill up with leading zeros.
  function Padded(b: seq<byte>, size: nat): (p: seq<byte>)
    ensures |p| == size
  {
    if |b| >= size then b[|b| - size..] else Zeros(size - |b|) + b
  }

  // The two integers the parser cuts out, or None where it reports an error.
  function Cut(der: seq<byte>): Option<(seq<byte>, seq<byte>)> {
    if |der| < 8 || der[0] != 0x30 || der[2] != 0x02 then None
    else
      var rLen := der[3] as nat;
      if 4 + rLen >= |der| then None
      else
        var sStart := 4 + rLen;
        if sStart + 1 >= |der| || der[sStart] != 0x02 then None
        else
          var sLen := der[sStart + 1] as nat;
          if sStart + 2 + sLen > |der| then None
          else Some((der[4..sStart], der[sStart + 2..sStart + 2 + sLen]))
  }

  // The built-in copy: the bytes go to a[at..], and nothing before changes.
  method Copy(a: array<byte>, at: nat, bytes: seq<byte>)
    requires at + |bytes| <= a.Length
    modifies a
    ensures forall j :: 0 <= j < at ==> a[j] == old(a[j])
    ensures forall j :: 0 <= j < |bytes| ==> a[at + j] == bytes[j]
  {
    var i := 0;
    while i < |bytes|
      invariant 0 <= i <= |bytes|
      invariant forall j :: 0 <= j < at ==> a[j] == old(a[j])
      invariant forall j :: 0 <= j < i ==> a[at + j] == bytes[j]
    {
      a[at + i] := bytes[i];
      i := i + 1;
    }
  }

  // padBytes: the result may share the input's array.
  method PadBytes(b: Slice, size: nat) returns (p: Slice)
    requires Fits(b)
    ensures Fits(p) && Content(p) == Padded(Content(b), size)
    ensures p.arr == b.arr || fresh(p.arr)
  {
    if b.len >= size {
      p := Sub(b, b.len - size, b.len);
      return;
    }
    var padded := new byte[size](i => 0);
    var pad := size - b.len;
    Copy(padded, pad, b.arr[b.off..b.off + b.len]);
    p := Slice(padded, 0, size, size);
    assert Content(p) == Zeros(pad) + Content(b);
  }

  // The built-in append: in place when the capacity allows, moving overlapping bytes safely.
  method Append(dst: Slice, src: Slice) returns (out: Slice)
    requires Fits(dst) && Fits(src)
    modifies dst.arr
    ensures Fits(out) && Content(out) == old(Content(dst) + Content(src))
  {
    var bytes := src.arr[src.off..src.off + src.len];
    if dst.len + src.len <= dst.cap {
      Copy(dst.arr, dst.off + dst.len, bytes);
      out := Slice(dst.arr, dst.off, dst.len + src.len, dst.cap);
      assert Content(out) == old(Content(dst)) + bytes;
    } else {
      var all := dst.arr[dst.off..dst.off + dst.len] + bytes;
      var grown := new byte[|all|](i requires 0 <= i < |all| => all[i]);
      out := Slice(grown, 0, |all|, |all|);
      assert grown[..] == all;
    }
  }

  // The checks of parseECDSASignature, and the lengths of R and S.
  method Framing(der: Slice) returns (found: bool, rLen: nat, sLen: nat)
    requires Fits(der)
    ensures found == Cut(Content(der)).Some?
    ensures found ==>
              && 6 + rLen + sLen <= der.len
              && Cut(Content(der)) == Some((Content(der)[4..4 + rLen], Content(der)[6 + rLen..6 + rLen + sLen]))
  {
    var a, o := der.arr, der.off;
    ghost var c := Content(der);
    assert forall k :: 0 <= k < der.len ==> c[k] == a[o + k];
    hide Content;
    rLen, sLen := 0, 0;
    if der.len < 8 || a[o] != 0x30 {
      return false, rLen, sLen;
    }
    if a[o + 2] != 0x02 {
      return false, rLen, sLen;
    }
    rLen := a[o + 3] as nat;
    if 4 + rLen >= der.len {
      return false, rLen, sLen;
    }
    var sStart := 4 + rLen;
    if sStart + 1 >= der.len || a[o + sStart] != 0x02 {
      return false, rLen, sLen;
    }
    sLen := a[o + sStart + 1] as nat;
    return sStart + 2 + sLen <= der.len, rLen, sLen;
  }

  // Its first half: check the framing and cut out R and S.
  method CutOut(der: Slice) returns (found: bool, r: Slice, s: Slice)
    requires Fits(der)
    ensures found == Cut(Content(der)).Some?
    ensures found ==>
              && Fits(r) && Fits(s) && r.arr == s.arr == der.arr
              && Cut(Content(der)) == Some((Content(r), Content(s)))
  {
    hide Cut;
    r, s := der, der;
    var rLen, sLen: nat;
    found, rLen, sLen := Framing(der);
    if found {
      r := Sub(der, 4, 4 + rLen);
      s := Sub(der, 6 + rLen, 6 + rLen + sLen);
      SubContent(der, 4, 4 + rLen);
      SubContent(der, 6 + rLen, 6 + rLen + sLen);
    }
  }

  // parseECDSASignature: None stands for the error results. Appending S to R may write
  // over the very bytes S was cut from; the result is still R followed by S.
  method ParseSignature(der: Slice) returns (sig: Option<Slice>)
    requires Fits(der)
    modifies der.arr
    ensures sig.Some? <==> old(Cut(Content(der))).Some?
    ensures sig.Some? ==>
              var (r, s) := old(Cut(Content(der))).value;
              Fits(sig.value) && Content(sig.value) == Padded(r, 32) + Padded(s, 32)
  {
    hide Cut;
    hide Padded;
    var found, r, s := CutOut(der);
    if !found {
      return None;
    }
    var rPadded := PadBytes(r, 32);
    var sPadded := PadBytes(s, 32);
    var out := Append(rPadded, sPadded);
    return Some(out);
  }

  // Encoding.

  function Pow256(k: nat): (p: nat)
    ensures p >= 1
  {
    if k == 0 then 1 else 256 * Pow256(k - 1)
  }

  // The big-endian bytes of n without leading zeros.
  function Magnitude(n: nat): (m: seq<byte>)
    requires n > 0
    ensures |m| > 0 && m[0] != 0
  {
    if n < 256 then [n as byte] else Magnitude(n / 256) + [(n % 256) as byte]
  }

  // The content of a DER INTEGER: a zero goes first if the top bit would read as a sign.
  function DerInteger(n: nat): seq<byte>
    requires n > 0
  {
    if Magnitude(n)[0] >= 0x80 then [0] + Magnitude(n) else Magnitude(n)
  }

  // SEQUENCE { INTEGER a, INTEGER b } with one-byte lengths.
  function Frame(a: seq<byte>, b: seq<byte>): seq<byte>
    requires |a| + |b| < 124
  {
    [0x30, (|a| + |b| + 4) as byte, 0x02, |a| as byte] + a + [0x02, |b| as byte] + b
  }

  // Ecdsa-Sig-Value ::= SEQUENCE { r INTEGER, s INTEGER }
  function Encode(r: nat, s: nat): seq<byte>
    requires 0 < r < Pow256(32) && 0 < s < Pow256(32)
  {
    PaddedInteger(r, 32);
    PaddedInteger(s, 32);
    Frame(DerInteger(r), DerInteger(s))
  }

  lemma CutFrame(a: seq<byte>, b: seq<byte>)
    requires 1 <= |a| <= 33 && 1 <= |b| <= 33
    ensures Cut(Frame(a, b)) == Some((a, b))
  {
    var der := Frame(a, b);
    assert der[3] == |a| as byte && der[4 + |a|] == 0x02 && der[4 + |a| + 1] == |b| as byte;
    assert der[4..4 + |a|] == a;
    assert der[4 + |a| + 2..4 + |a| + 2 + |b|] == b;
  }

  ghost predicate Framed(der: seq<byte>, r: seq<byte>, s: seq<byte>, x: byte, rest: seq<byte>) {
    && |r| < 256 && |s| < 256
    && der == [0x30, x, 0x02, |r| as byte] + r + [0x02, |s| as byte] + s + rest
  }

  // What is accepted: a sequence of two integers with one-byte lengths, in at least eight
  // bytes. The length of the sequence is not looked at, nor is what follows it.
  lemma CutExactlyWhen(der: seq<byte>, r: seq<byte>, s: seq<byte>)
    ensures Cut(der) == Some((r, s)) <==> |der| >= 8 && exists x, rest :: Framed(der, r, s, x, rest)
  {
    if Cut(der) == Some((r, s)) {
      CutShape(der, r, s);
      Refit(der, |r|, |s|);
      hide Cut;
      assert der[..4] == [0x30, der[1], 0x02, |r| as byte];
      assert der[4 + |r|..6 + |r|] == [0x02, |s| as byte];
      assert Framed(der, r, s, der[1], der[6 + |r| + |s|..]);
    }
    if |der| >= 8 && exists x, rest :: Framed(der, r, s, x, rest) {
      var x, rest :| Framed(der, r, s, x, rest);
      CutFramed(der, r, s, x, rest);
    }
  }

  lemma CutShape(der: seq<byte>, r: seq<byte>, s: seq<byte>)
    requires Cut(der) == Some((r, s))
    ensures |r| < 256 && |s| < 256 && |der| >= 8 && |der| >= 6 + |r| + |s|
    ensures der[0] == 0x30 && der[2] == 0x02 && der[3] == |r| as byte && der[4..4 + |r|] == r
    ensures der[4 + |r|] == 0x02 && der[5 + |r|] == |s| as byte && der[6 + |r|..6 + |r| + |s|] == s
  {
  }

  lemma Refit(der: seq<byte>, m: nat, n: nat)
    requires |der| >= 6 + m + n
    ensures der == der[..4] + der[4..4 + m] + der[4 + m..6 + m] + der[6 + m..6 + m + n] + der[6 + m + n..]
  {
  }

  lemma CutFramed(der: seq<byte>, r: seq<byte>, s: seq<byte>, x: byte, rest: seq<byte>)
    requires |der| >= 8 && Framed(der, r, s, x, rest)
    ensures Cut(der) == Some((r, s))
  {
    var n := 4 + |r|;
    assert der[0] == 0x30 && der[2] == 0x02 && der[3] == |r| as byte;
    assert der[n] == 0x02 && der[n + 1] == |s| as byte;
    assert der[4..n] == r;
    assert der[n + 2..n + 2 + |s|] == s;
  }

  // The k-byte big-endian form of n.
  function FixedWidth(n: nat, k: nat): (f: seq<byte>)
    ensures |f| == k
  {
    if k == 0 then [] else FixedWidth(n / 256, k - 1) + [(n % 256) as byte]
  }

  // The number a byte string denotes.
  function Value(b: seq<byte>): nat {
    if b == [] then 0 else Value(b[..|b| - 1]) * 256 + b[|b| - 1] as nat
  }

  lemma {:induction false} MagnitudeLength(n: nat, k: nat)
    requires 0 < n < Pow256(k)
    ensures |Magnitude(n)| <= k
  {
    if n < 256 {
    } else {
      assert n / 256 < Pow256(k - 1);
      MagnitudeLength(n / 256, k - 1);
    }
  }

  lemma {:induction false} FixedIsPadded(n: nat, k: nat)
    requires 0 < n && |Magnitude(n)| <= k
    ensures FixedWidth(n, k) == Zeros(k - |Magnitude(n)|) + Magnitude(n)
  {
    if n < 256 {
      FixedZero(k - 1);
      assert n / 256 == 0 && n % 256 == n;
    } else {
      FixedIsPadded(n / 256, k - 1);
    }
  }

  lemma {:induction false} FixedZero(k: nat)
    ensures FixedWidth(0, k) == Zeros(k)
  {
    if k == 0 {
    } else {
      FixedZero(k - 1);
    }
  }

  // The fixed-width form denotes n.
  lemma {:induction false} FixedValue(n: nat, k: nat)
    requires n < Pow256(k)
    ensures Value(FixedWidth(n, k)) == n
  {
    if k == 0 {
    } else {
      FixedValue(n / 256, k - 1);
      assert FixedWidth(n, k)[..k - 1] == FixedWidth(n / 256, k - 1);
    }
  }

  lemma PaddedInteger(n: nat, k: nat)
    requires 0 < n < Pow256(k)
    ensures Padded(DerInteger(n), k) == FixedWidth(n, k)
    ensures 1 <= |DerInteger(n)| <= k + 1
  {
    hide Pow256;
    hide FixedWidth;
    hide Magnitude;
    MagnitudeLength(n, k);
    FixedIsPadded(n, k);
    ZeroFirst(Magnitude(n), k);
  }

  // A zero in front is padding, or dropped again.
  lemma ZeroFirst(m: seq<byte>, k: nat)
    requires 0 < |m| <= k
    ensures Padded([0] + m, k) == Padded(m, k) == Zeros(k - |m|) + m
  {
    if |m| == k {
      assert ([0] + m)[1..] == m;
    } else {
      assert Zeros(k - 1 - |m|) + ([0] + m) == Zeros(k - |m|) + m;
    }
  }

  // Parsing the DER encoding of any r and s below 2^256 gives their 32-byte forms.
  lemma RoundTrip(r: nat, s: nat)
    requires 0 < r < Pow256(32) && 0 < s < Pow256(32)
    ensures Cut(Encode(r, s)) == Some((DerInteger(r), DerInteger(s)))
    ensures Padded(DerInteger(r), 32) == FixedWidth(r, 32) && Value(FixedWidth(r, 32)) == r
    ensures Padded(DerInteger(s), 32) == FixedWidth(s, 32) && Value(FixedWidth(s, 32)) == s
  {
    hide Pow256;
    hide FixedWidth;
    hide DerInteger;
    hide Padded;
    PaddedInteger(r, 32);
    PaddedInteger(s, 32);
    FixedValue(r, 32);
    FixedValue(s, 32);
    CutFrame(DerInteger(r), DerInteger(s));
  }
}
