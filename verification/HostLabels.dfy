/** Host names label by label (RFC 6125 section 6.4.3): what a match means for the names themselves. */
module HostLabels {
  import opened Bytes
  import opened HostName

  /** The labels of a name: what stands between its dots. */
  function Labels(s: bytes): (ls: seq<bytes>)
    ensures |ls| >= 1
  {
    if s == [] then [[]] else
    var rest := Labels(s[1..]);
    Before(s[0], rest)
  }

  /** A letter goes in front of the first label, and a dot starts a label of its own. */
  function Before(a: byte, x: seq<bytes>): seq<bytes>
    requires x != []
  {
    if a == 0x2E then [[]] + x else [[a] + x[0]] + x[1..]
  }

  /** The same letter in either case, or the same octet. */
  predicate SameLetter(a: byte, b: byte) {
    a == b || (0x41 <= a <= 0x5A && b as int == a as int + 32) || (0x41 <= b <= 0x5A && a as int == b as int + 32)
  }

  predicate SameLabel(a: bytes, b: bytes) {
    |a| == |b| && forall i :: 0 <= i < |a| ==> SameLetter(a[i], b[i])
  }

  predicate SameLabels(a: seq<bytes>, b: seq<bytes>) {
    |a| == |b| && forall i :: 0 <= i < |a| ==> SameLabel(a[i], b[i])
  }

  // ----- equality up to case ---------------------------------------------------------------

  lemma LetterIs(a: byte, b: byte)
    ensures Lower(a) == Lower(b) <==> SameLetter(a, b)
  {}

  lemma SameNameFirst(a: bytes, b: bytes)
    ensures a != [] && b != [] ==> (SameName(a, b) <==> SameLetter(a[0], b[0]) && SameName(a[1..], b[1..]))
    ensures a == [] || b == [] ==> (SameName(a, b) <==> a == b)
  {
    if a != [] && b != [] {
      LetterIs(a[0], b[0]);
      var x, y := Lowered(a), Lowered(b);
      assert x == [Lower(a[0])] + Lowered(a[1..]) && y == [Lower(b[0])] + Lowered(b[1..]);
      assert x[0] == Lower(a[0]) && x[1..] == Lowered(a[1..]) && y[0] == Lower(b[0]) && y[1..] == Lowered(b[1..]);
      if SameLetter(a[0], b[0]) && SameName(a[1..], b[1..]) {
        assert x == [x[0]] + x[1..] == [y[0]] + y[1..] == y;
      }
    }
  }

  lemma LabelFirst(a: byte, b: byte, u: bytes, v: bytes)
    ensures SameLabel([a] + u, [b] + v) <==> SameLetter(a, b) && SameLabel(u, v)
  {
    hide SameLetter;
    var p, q := [a] + u, [b] + v;
    assert p[0] == a && q[0] == b;
    assert forall j :: 0 <= j < |u| ==> p[j + 1] == u[j];
    assert forall j :: 0 <= j < |v| ==> q[j + 1] == v[j];
  }

  lemma LabelsFirst(p: bytes, q: bytes, x: seq<bytes>, y: seq<bytes>)
    ensures SameLabels([p] + x, [q] + y) <==> SameLabel(p, q) && SameLabels(x, y)
  {
    hide SameLabel;
    var u, v := [p] + x, [q] + y;
    assert u[0] == p && v[0] == q;
    assert forall j :: 0 <= j < |x| ==> u[j + 1] == x[j];
    assert forall j :: 0 <= j < |y| ==> v[j + 1] == y[j];
  }

  // A dot is the same letter as nothing but a dot, so the first labels end together.
  lemma SameLabelsFirst(a: byte, b: byte, x: seq<bytes>, y: seq<bytes>)
    requires x != [] && y != []
    ensures SameLabels(Before(a, x), Before(b, y)) <==> SameLetter(a, b) && SameLabels(x, y)
  {
    hide SameLabels;
    assert x == [x[0]] + x[1..] && y == [y[0]] + y[1..];
    LabelsFirst(x[0], y[0], x[1..], y[1..]);
    LabelFirst(a, b, x[0], y[0]);
    LabelsFirst([], [], x, y);
    LabelsFirst([a] + x[0], [b] + y[0], x[1..], y[1..]);
    LabelsFirst([], [b] + y[0], x, y[1..]);
    LabelsFirst([a] + x[0], [], x[1..], y);
  }

  /** Two names are equal up to case exactly if they are so label by label. */
  lemma {:induction false} SameNameByLabels(a: bytes, b: bytes)
    ensures SameName(a, b) <==> SameLabels(Labels(a), Labels(b))
    decreases |a| + |b|
  {
    SameNameFirst(a, b);
    if a != [] && b != [] {
      SameNameByLabels(a[1..], b[1..]);
      SameLabelsFirst(a[0], b[0], Labels(a[1..]), Labels(b[1..]));
    } else if a == [] && b != [] {
      LabelsOfMore(b);
    } else if a != [] {
      LabelsOfMore(a);
    }
  }

  lemma LabelsOfMore(s: bytes)
    requires s != []
    ensures !SameLabels([[]], Labels(s)) && !SameLabels(Labels(s), [[]])
  {
    assert |Labels(s[1..])| >= 1;
    assert s[0] != 0x2E ==> |Labels(s)[0]| > 0;
  }

  // ----- the wildcard ----------------------------------------------------------------------

  /** A name splits at its first dot into its first label and the name of the other labels. */
  lemma {:induction false} FirstLabel(s: bytes, k: nat)
    requires k < |s| && 0x2E !in s[..k] && s[k] == 0x2E
    ensures Labels(s) == [s[..k]] + Labels(s[k + 1..])
    decreases k
  {
    if k == 0 {
      assert s[..0] == [];
    } else {
      assert s[1..][..k - 1] == s[..k][1..] && s[1..][k..] == s[k + 1..];
      FirstLabel(s[1..], k - 1);
      assert s[..k] == [s[0]] + s[1..][..k - 1];
      assert s[0] == s[..k][0];
    }
  }

  /** Without a dot there is one label. */
  lemma {:induction false} OneLabel(s: bytes)
    requires 0x2E !in s
    ensures Labels(s) == [s]
    decreases |s|
  {
    if s != [] {
      OneLabel(s[1..]);
      assert s == [s[0]] + s[1..];
    }
  }

  /** Where the first dot is, if there is one. */
  lemma {:induction false} FirstDot(s: bytes) returns (k: nat)
    ensures k <= |s| && 0x2E !in s[..k] && (k < |s| ==> s[k] == 0x2E)
    decreases |s|
  {
    if s == [] || s[0] == 0x2E {
      k := 0;
    } else {
      var j := FirstDot(s[1..]);
      k := j + 1;
      assert s[..k] == [s[0]] + s[1..][..j];
    }
  }

  /** A pattern that starts with a star and a dot, and more. */
  predicate StarPattern(pat: bytes) { |pat| >= 3 && pat[0] == 0x2A && pat[1] == 0x2E }

  /**
   * A pattern matches a host name if and only if it is the same name up to case, or it starts with the
   * label `*`, the host's first label is not empty, and all their other labels are the same up to case.
   */
  lemma MatchesByLabels(pat: bytes, host: bytes)
    ensures NameMatches(pat, host)
      <==> if StarPattern(pat)
           then |Labels(host)| >= 2 && Labels(host)[0] != [] && SameLabels(Labels(host)[1..], Labels(pat)[1..])
           else pat != [] && SameLabels(Labels(pat), Labels(host))
  {
    hide SameName, SameLabels, Labels;
    if StarPattern(pat) {
      WildcardByLabels(pat, host);
    } else {
      SameNameByLabels(pat, host);
    }
  }

  lemma WildcardByLabels(pat: bytes, host: bytes)
    requires StarPattern(pat)
    ensures NameMatches(pat, host)
      <==> |Labels(host)| >= 2 && Labels(host)[0] != [] && SameLabels(Labels(host)[1..], Labels(pat)[1..])
  {
    hide SameName, SameLabels, Labels;
    FirstLabel(pat, 1);
    assert Labels(pat)[1..] == Labels(pat[2..]);
    var d := FirstDot(host);
    if d == |host| {
      assert host[..d] == host;
      OneLabel(host);
      NoDotNoMatch(pat, host);
    } else {
      FirstLabel(host, d);
      assert Labels(host)[0] == host[..d] && Labels(host)[1..] == Labels(host[d + 1..]);
      DotFirst(pat, host, d);
      SameNameByLabels(host[d + 1..], pat[2..]);
    }
  }

  lemma SameNameSymmetric(a: bytes, b: bytes)
    ensures SameName(a, b) <==> SameName(b, a)
  {}

  // The suffix that is compared starts with a dot.
  lemma SuffixStarts(pat: bytes, host: bytes, k: nat)
    requires StarPattern(pat) && k < |host| && SameName(pat[1..], host[k..])
    ensures host[k] == 0x2E && SameName(host[k + 1..], pat[2..])
  {
    SameNameFirst(pat[1..], host[k..]);
    assert pat[1..][1..] == pat[2..] && host[k..][1..] == host[k + 1..];
    SameNameSymmetric(pat[2..], host[k + 1..]);
  }

  lemma NoDotNoMatch(pat: bytes, host: bytes)
    requires StarPattern(pat) && 0x2E !in host
    ensures !NameMatches(pat, host)
  {
    hide SameName;
    if k :| 0 < k < |host| && DOT !in host[..k] && SameName(pat[1..], host[k..]) {
      SuffixStarts(pat, host, k);
    }
  }

  lemma NoDotBefore(host: bytes, k: nat)
    requires k <= |host| && 0x2E !in host[..k]
    ensures forall i :: 0 <= i < k ==> host[i] != 0x2E
  {
    assert forall i :: 0 <= i < k ==> host[i] == host[..k][i];
  }

  lemma DotFirst(pat: bytes, host: bytes, d: nat)
    requires StarPattern(pat) && d < |host| && host[d] == 0x2E && 0x2E !in host[..d]
    ensures NameMatches(pat, host) <==> d > 0 && SameName(host[d + 1..], pat[2..])
  {
    hide SameName;
    if k :| 0 < k < |host| && DOT !in host[..k] && SameName(pat[1..], host[k..]) {
      SuffixStarts(pat, host, k);
      NoDotBefore(host, k);
      NoDotBefore(host, d);
    }
    if d > 0 && SameName(host[d + 1..], pat[2..]) {
      SameNameFirst(pat[1..], host[d..]);
      assert pat[1..][1..] == pat[2..] && host[d..][1..] == host[d + 1..];
      SameNameSymmetric(pat[2..], host[d + 1..]);
    }
  }
}
