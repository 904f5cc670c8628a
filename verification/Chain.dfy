/** The native certificate chain walk (`wn_VerifyChain` in `wn_connect.c`). */
module Chain {
  import opened Bytes
  import opened Crypto
  import opened X509Spec
  import opened HostName
  import X509
  import CertTime

  const LEAF_SPKI_SZ: nat := 1024

  // ----- one link --------------------------------------------------------------------------

  function SigTag(a: SigAlg): nat {
    match a
    case SigUnknown => 0
    case EcdsaSha256 => 1
    case EcdsaSha384 => 2
    case RsaSha256 => 3
    case RsaSha384 => 4
    case RsaSha512 => 5
    case SigEd25519 => 6
  }

  /** The signature algorithm must belong to the issuer's kind of key. */
  predicate SigAlgMatchesKey(key: KeyAlg, sig: SigAlg) {
    match key
    case KeyEcdsa => sig.EcdsaSha256? || sig.EcdsaSha384?
    case KeyRsa => IsRsa(sig)
    case KeyEd25519 => sig.SigEd25519?
    case KeyUnknown => false
  }

  function Text(s: Slice, der: bytes): bytes {
    if s.In(der) then s.Of(der) else []
  }

  predicate SignedBy(c: Suite, child: bytes, cc: Cert, issuer: bytes, ic: Cert) {
    SigAlgMatchesKey(ic.keyAlg, cc.sigAlg)
    && c.certSigned(Text(ic.spki, issuer), Text(cc.tbs, child), SigTag(cc.sigAlg), Text(cc.sig, child))
  }

  /** CA flag, keyCertSign when keyUsage is present, and validity: required of presented issuers. */
  predicate MayIssue(issuer: bytes, ic: Cert, now: int) {
    && ic.ext.ca
    && (ic.ext.ku.Present? ==> ic.ext.keyUsage / 4 % 2 == 1)
    && CertTime.TimeVerdict(Text(ic.notBefore, issuer), Text(ic.notAfter, issuer), now) == Success
  }

  // ----- the walk --------------------------------------------------------------------------

  datatype Trust = Trust(anchor: bytes, now: int) {
    function AnchorSpki(): Option<bytes> {
      match ParseCert(anchor)
      case Fail(_) => None
      case Ok(a) => Some(Text(a.spki, anchor))
    }

    /** The issuer of `certs[i]` is the next certificate, or the anchor behind the last one. */
    function IssuerOf(certs: seq<bytes>, i: nat): bytes
      requires i < |certs|
    {
      if i + 1 < |certs| then certs[i + 1] else anchor
    }

    // A presented issuer that is not the anchor itself.
    predicate Presented(certs: seq<bytes>, i: nat)
      requires i < |certs|
    {
      i + 1 < |certs| && certs[i + 1] != anchor
    }

    predicate AtAnchor(cert: bytes) {
      && ParseCert(cert).Ok?
      && AnchorSpki() == Some(Text(ParseCert(cert).value.spki, cert))
    }

    predicate LinkOk(c: Suite, certs: seq<bytes>, i: nat)
      requires i < |certs|
    {
      var child, issuer := certs[i], IssuerOf(certs, i);
      var pc, pi := ParseCert(child), ParseCert(issuer);
      && pc.Ok? && pi.Ok? && SignedBy(c, child, pc.value, issuer, pi.value)
      && (Presented(certs, i) ==> MayIssue(issuer, pi.value, now))
    }

    function Walk(c: Suite, certs: seq<bytes>, i: nat): (s: Status)
      requires i <= |certs|
      ensures s == Success || s == BadCert
      decreases |certs| - i
    {
      if i == |certs| || AtAnchor(certs[i]) then Success
      else if !LinkOk(c, certs, i) then BadCert
      else Walk(c, certs, i + 1)
    }

    /** Everything up to `k` is linked, and `k` is the end of the chain or a re-sent anchor key. */
    ghost predicate Anchored(c: Suite, certs: seq<bytes>, k: nat) {
      && k <= |certs| && (k < |certs| ==> AtAnchor(certs[k]))
      && forall i :: 0 <= i < k ==> LinkOk(c, certs, i)
    }
  }

  lemma {:induction false} WalkFinds(c: Suite, t: Trust, certs: seq<bytes>, i: nat) returns (k: nat)
    requires i <= |certs| && t.Walk(c, certs, i) == Success
    ensures i <= k <= |certs| && (k < |certs| ==> t.AtAnchor(certs[k]))
    ensures forall j :: i <= j < k ==> t.LinkOk(c, certs, j)
    decreases |certs| - i
  {
    hide Trust.AtAnchor, Trust.LinkOk;
    if i == |certs| || t.AtAnchor(certs[i]) {
      k := i;
    } else {
      k := WalkFinds(c, t, certs, i + 1);
    }
  }

  lemma {:induction false} WalkReaches(c: Suite, t: Trust, certs: seq<bytes>, i: nat, k: nat)
    requires i <= k && t.Anchored(c, certs, k)
    ensures t.Walk(c, certs, i) == Success
    decreases k - i
  {
    hide Trust.AtAnchor, Trust.LinkOk;
    if i < k {
      WalkReaches(c, t, certs, i + 1, k);
    }
  }

  /**
   * Chain walk soundness and completeness: it succeeds exactly when some prefix of the chain is
   * linked signature by signature and ends at the anchor, each presented issuer in it being a CA
   * that may sign certificates and is in time.
   */
  lemma WalkExactly(c: Suite, t: Trust, certs: seq<bytes>)
    ensures t.Walk(c, certs, 0) == Success <==> exists k :: t.Anchored(c, certs, k)
  {
    hide Trust.AtAnchor, Trust.LinkOk;
    if t.Walk(c, certs, 0) == Success {
      var k := WalkFinds(c, t, certs, 0);
      assert t.Anchored(c, certs, k);
    }
    if k :| t.Anchored(c, certs, k) {
      WalkReaches(c, t, certs, 0, k);
    }
  }

  // ----- the leaf --------------------------------------------------------------------------

  /** How the caller binds the leaf's identity. */
  datatype Identity = Identity(serverName: Option<bytes>, pinned: Option<bytes>)

  predicate PinOk(pin: bytes, cert: bytes, p: Cert) {
    pin != [] && pin == Text(if p.keyAlg == KeyEcdsa then p.spki else p.pubKey, cert)
  }

  /** A stored dNSName matches, or the common name when there is no stored dNSName. */
  ghost predicate NameOk(host: bytes, cert: bytes, p: Cert) {
    || (exists i :: 0 <= i < |p.ext.san| && NameMatches(Text(p.ext.san[i], cert), host))
    || (p.ext.san == [] && p.cn.Some? && NameMatches(Text(p.cn.value, cert), host))
  }

  ghost predicate LeafOk(id: Identity, cert: bytes, p: Cert, now: int) {
    && (p.ext.ku.Present? ==> p.ext.keyUsage / 0x80 % 2 == 1)
    && (p.ext.eku.Present? ==> p.ext.serverAuth)
    && (id.pinned.Some? ==> PinOk(id.pinned.value, cert, p))
    && (id.serverName.Some? ==> NameOk(id.serverName.value, cert, p))
    && CertTime.TimeVerdict(Text(p.notBefore, cert), Text(p.notAfter, cert), now) == Success
  }

  /** The chain is anchored and the leaf acceptable; the result is the leaf's SPKI. */
  ghost function ChainVerdict(c: Suite, t: Trust, id: Identity, certs: seq<bytes>): (v: Try<bytes>)
    ensures v.Fail? ==> v.status != Success
  {
    if certs == [] then Fail(InvalidArg)
    else if t.Walk(c, certs, 0) != Success || ParseCert(certs[0]).Fail? then Fail(BadCert)
    else
      var p := ParseCert(certs[0]).value;
      if p.spki.len > LEAF_SPKI_SZ then Fail(CryptoErr)
      else if !LeafOk(id, certs[0], p, t.now) then Fail(BadCert)
      else Ok(Text(p.spki, certs[0]))
  }

  // ----- the code --------------------------------------------------------------------------

  method VerifySignedBy(c: Suite, childDer: bytes, child: X509.X509Cert, issuerDer: bytes, issuer: X509.X509Cert)
    returns (ret: Status)
    ensures ret == (if SignedBy(c, childDer, child.State(), issuerDer, issuer.State()) then Success else BadCert)
  {
    ret := Success;
    if !SigAlgMatchesKey(issuer.keyAlg, child.sigAlg) {
      ret := BadCert;
    } else if !c.certSigned(Text(issuer.spki, issuerDer), Text(child.tbs, childDer), SigTag(child.sigAlg),
        Text(child.sig, childDer)) {
      ret := BadCert;
    }
  }

  /** A bad date is a certificate failure. */
  method InTime(der: bytes, cert: X509.X509Cert, now: int) returns (ret: Status)
    ensures var v := CertTime.TimeVerdict(Text(cert.notBefore, der), Text(cert.notAfter, der), now);
      ret == if v == Success then Success else BadCert
  {
    ret := CertTime.TimeValid(Text(cert.notBefore, der), Text(cert.notAfter, der), now);
    if ret == X509Decode {
      ret := BadCert;
    }
  }

  /** One step of the walk: `stop` when the certificate carries the anchor's key. */
  method WalkStep(c: Suite, t: Trust, certs: seq<bytes>, i: nat, anchorSpki: Option<bytes>,
                  child: X509.X509Cert, issuer: X509.X509Cert)
    returns (ret: Status, stop: bool)
    requires i < |certs| && child != issuer && anchorSpki == t.AnchorSpki()
    modifies child, issuer
    ensures stop == t.AtAnchor(certs[i])
    ensures !stop ==> ret == if t.LinkOk(c, certs, i) then Success else BadCert
    ensures stop ==> ret == Success
  {
    hide ParseCert, SignedBy, CertTime.TimeVerdict, Trust.AnchorSpki;
    stop := false;
    ret := child.Parse(certs[i]);
    if ret != Success {
      return BadCert, false;
    }
    if anchorSpki.Some? && Text(child.spki, certs[i]) == anchorSpki.value {
      return Success, true;
    }
    var issuerDer := if i + 1 < |certs| then certs[i + 1] else t.anchor;
    var notAnchor := i + 1 < |certs| && issuerDer != t.anchor;
    ret := issuer.Parse(issuerDer);
    if ret != Success {
      ret := BadCert;
    }
    if ret == Success {
      ret := VerifySignedBy(c, certs[i], child, issuerDer, issuer);
    }
    if ret == Success && notAnchor && !issuer.ca {
      ret := BadCert;
    }
    if ret == Success && notAnchor && issuer.ku.Present? && issuer.keyUsage / 4 % 2 == 0 {
      ret := BadCert;
    }
    if ret == Success && notAnchor {
      ret := InTime(issuerDer, issuer, t.now);
    }
  }

  method CheckServerName(der: bytes, leaf: X509.X509Cert, host: bytes) returns (ret: Status)
    ensures ret == (if NameOk(host, der, leaf.State()) then Success else BadCert)
  {
    hide NameMatches;
    ret := BadCert;
    var i := 0;
    while i < |leaf.san|
      invariant 0 <= i <= |leaf.san|
      invariant ret == (if exists j :: 0 <= j < i && NameMatches(Text(leaf.san[j], der), host) then Success else BadCert)
    {
      var m := DnsNameMatch(Text(leaf.san[i], der), host);
      if m == Success {
        ret := Success;
      }
      i := i + 1;
    }
    if leaf.san == [] && leaf.cn.Some? {
      var m := DnsNameMatch(Text(leaf.cn.value, der), host);
      if m == Success {
        ret := Success;
      }
    }
  }

  method CheckLeaf(der: bytes, leaf: X509.X509Cert, id: Identity, now: int) returns (ret: Status)
    ensures ret == (if LeafOk(id, der, leaf.State(), now) then Success else BadCert)
  {
    hide NameOk, CertTime.TimeVerdict;
    ret := Success;
    if leaf.ku.Present? && leaf.keyUsage / 0x80 % 2 == 0 {
      ret := BadCert;
    }
    if ret == Success && leaf.eku.Present? && !leaf.serverAuth {
      ret := BadCert;
    }
    if ret == Success && id.pinned.Some? {
      var pin, key := id.pinned.value, Text(if leaf.keyAlg == KeyEcdsa then leaf.spki else leaf.pubKey, der);
      if pin == [] || pin != key {
        ret := BadCert;
      }
    }
    if ret == Success && id.serverName.Some? {
      ret := CheckServerName(der, leaf, id.serverName.value);
    }
    if ret == Success {
      ret := InTime(der, leaf, now);
    }
  }

  method VerifyChain(c: Suite, t: Trust, id: Identity, certs: seq<bytes>) returns (ret: Status, spki: bytes)
    ensures ChainVerdict(c, t, id, certs) == if ret == Success then Ok(spki) else Fail(ret)
  {
    hide ParseCert, LeafOk, Trust.AtAnchor, Trust.LinkOk;
    ret, spki := Success, [];
    if |certs| < 1 {
      return InvalidArg, [];
    }
    var child := new X509.X509Cert();
    var issuer := new X509.X509Cert();
    var anchorSpki: Option<bytes> := None;
    var parsed := issuer.Parse(t.anchor);
    if parsed == Success {
      anchorSpki := Some(Text(issuer.spki, t.anchor));
    }
    var i, stop := 0, false;
    while i < |certs| && ret == Success && !stop
      invariant 0 <= i <= |certs|
      invariant t.Walk(c, certs, 0) == if ret == Success && !stop then t.Walk(c, certs, i) else ret
    {
      ret, stop := WalkStep(c, t, certs, i, anchorSpki, child, issuer);
      i := i + 1;
    }
    if ret == Success {
      ret := child.Parse(certs[0]);
      if ret != Success {
        ret := BadCert;
      } else {
        if child.spki.len > LEAF_SPKI_SZ {
          ret := CryptoErr;
        } else {
          spki := Text(child.spki, certs[0]);
        }
        if ret == Success {
          ret := CheckLeaf(certs[0], child, id, t.now);
        }
      }
    }
  }
}
