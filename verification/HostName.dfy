/** Host name matching (`wn_DnsNameMatch` in `wn_connect.c`). */
module HostName {
  import opened Bytes

  const STAR: byte := 0x2A
  const DOT: byte := 0x2E

  function Lower(b: byte): byte { if 0x41 <= b <= 0x5A then b + 0x20 else b }

  function Lowered(s: bytes): (r: bytes)
    ensures |r| == |s|
  {
    if s == [] then [] else [Lower(s[0])] + Lowered(s[1..])
  }

  /** Equal up to ASCII case. */
  predicate SameName(a: bytes, b: bytes) { Lowered(a) == Lowered(b) }

  predicate Wildcard(pat: bytes) { |pat| > 2 && pat[0] == STAR && pat[1] == DOT }

  /**
   * RFC 6125: an exact match, or a wildcard for exactly the leftmost label, which is not empty and
   * contains no dot.
   */
  ghost predicate NameMatches(pat: bytes, host: bytes) {
    if Wildcard(pat)
    then exists k :: 0 < k < |host| && DOT !in host[..k] && SameName(pat[1..], host[k..])
    else pat != [] && SameName(pat, host)
  }

  lemma {:induction false} LoweredAt(s: bytes, i: nat)
    requires i < |s|
    ensures Lowered(s)[i] == Lower(s[i])
  {
    if i > 0 {
      LoweredAt(s[1..], i - 1);
    }
  }

  lemma SameNameAt(a: bytes, b: bytes)
    ensures SameName(a, b) <==> |a| == |b| && forall i :: 0 <= i < |a| ==> Lower(a[i]) == Lower(b[i])
  {
    if |a| == |b| {
      forall i | 0 <= i < |a|
        ensures Lowered(a)[i] == Lower(a[i]) && Lowered(b)[i] == Lower(b[i])
      {
        LoweredAt(a, i);
        LoweredAt(b, i);
      }
      if forall i :: 0 <= i < |a| ==> Lower(a[i]) == Lower(b[i]) {
        assert Lowered(a) == Lowered(b);
      }
      if SameName(a, b) {
        forall i | 0 <= i < |a|
          ensures Lower(a[i]) == Lower(b[i])
        {
          assert Lowered(a)[i] == Lowered(b)[i];
        }
      }
    }
  }

  /** `wn_DnsCaseEq`: compares every position. */
  method DnsCaseEq(a: bytes, b: bytes) returns (eq: bool)
    requires |a| == |b|
    ensures eq == SameName(a, b)
  {
    eq := true;
    var i := 0;
    while i < |a|
      invariant 0 <= i <= |a|
      invariant eq <==> forall j :: 0 <= j < i ==> Lower(a[j]) == Lower(b[j])
    {
      if Lower(a[i]) != Lower(b[i]) {
        eq := false;
      }
      i := i + 1;
    }
    SameNameAt(a, b);
  }

  method DnsNameMatch(pat: bytes, host: bytes) returns (ret: Status)
    ensures ret == (if NameMatches(pat, host) then Success else BadCert)
  {
    hide SameName, Lowered;
    ret := BadCert;
    if pat == [] || host == [] {
      Lengths(pat, host);
    } else if |pat| > 2 && pat[0] == STAR && pat[1] == DOT {
      var k := 0;
      while k < |host| && host[k] != DOT
        invariant 0 <= k <= |host| && DOT !in host[..k]
      {
        k := k + 1;
      }
      FirstDotOnly(pat[1..], host, k);
      if k > 0 && k < |host| && |pat| - 1 == |host| - k {
        var eq := DnsCaseEq(pat[1..], host[k..]);
        if eq {
          ret := Success;
        }
      }
    } else if |pat| == |host| {
      var eq := DnsCaseEq(pat, host);
      if eq {
        ret := Success;
      }
    } else {
      Lengths(pat, host);
    }
  }

  lemma Lengths(a: bytes, b: bytes)
    ensures SameName(a, b) ==> |a| == |b|
  {}

  lemma LowerDot(b: byte)
    ensures Lower(b) == DOT <==> b == DOT
  {}

  lemma NoDotBefore(host: bytes, k: nat)
    requires k <= |host| && DOT !in host[..k]
    ensures forall j :: 0 <= j < k ==> host[j] != DOT
  {}

  /** A suffix that starts with a dot can only match behind the first dot of the host. */
  lemma FirstDotOnly(suffix: bytes, host: bytes, first: nat)
    requires suffix != [] && suffix[0] == DOT && first <= |host| && DOT !in host[..first]
    requires first < |host| ==> host[first] == DOT
    ensures forall k :: 0 < k < |host| && DOT !in host[..k] && SameName(suffix, host[k..]) ==> k == first
    ensures first < |host| && SameName(suffix, host[first..]) ==> |suffix| == |host| - first
  {
    forall k | 0 < k < |host| && DOT !in host[..k] && SameName(suffix, host[k..])
      ensures k == first
    {
      SameNameAt(suffix, host[k..]);
      LowerDot(host[k]);
      assert host[k..][0] == host[k];
      NoDotBefore(host, k);
      NoDotBefore(host, first);
    }
    if first < |host| {
      Lengths(suffix, host[first..]);
    }
  }
}
