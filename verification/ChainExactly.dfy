/**
 * Exactly which chains the client accepts, and for which server, said of the parsed certificates alone
 * (RFC 5280 section 6.1, RFC 6125 section 6.4).
 */
module ChainExactly {
  import opened Bytes
  import opened Crypto
  import opened X509Spec
  import opened Chain
  import HostName
  import CertTime

  // ----- certificates ----------------------------------------------------------------------

  /** The clock lies between the two times of the certificate, both included. */
  predicate InPeriod(der: bytes, p: Cert, now: int) {
    var from, to := CertTime.TimeOf(Text(p.notBefore, der)), CertTime.TimeOf(Text(p.notAfter, der));
    from.Some? && to.Some? && from.value.Epoch() <= now && now <= to.value.Epoch()
  }

  /** The signature algorithm's number at the signature check, for algorithms of the issuer's kind of key. */
  function SignatureNumber(key: KeyAlg, sig: SigAlg): Option<nat> {
    if key.KeyEcdsa? && sig.EcdsaSha256? then Some(1)
    else if key.KeyEcdsa? && sig.EcdsaSha384? then Some(2)
    else if key.KeyRsa? && sig.RsaSha256? then Some(3)
    else if key.KeyRsa? && sig.RsaSha384? then Some(4)
    else if key.KeyRsa? && sig.RsaSha512? then Some(5)
    else if key.KeyEd25519? && sig.SigEd25519? then Some(6)
    else None
  }

  /** Both certificates parse, and the child's tbs is signed under the issuer's key. */
  predicate Signed(c: Suite, child: bytes, issuer: bytes) {
    var p, q := ParseCert(child), ParseCert(issuer);
    && p.Ok? && q.Ok?
    && var number := SignatureNumber(q.value.keyAlg, p.value.sigAlg);
    && number.Some?
    && c.certSigned(Text(q.value.spki, issuer), Text(p.value.tbs, child), number.value, Text(p.value.sig, child))
  }

  /** A certification authority, allowed to sign certificates if it has a key usage, and in time. */
  predicate Authority(issuer: bytes, now: int) {
    && ParseCert(issuer).Ok?
    && var p := ParseCert(issuer).value;
    && p.ext.ca && (p.ext.ku.Present? ==> p.ext.keyUsage % 8 >= 4) && InPeriod(issuer, p, now)
  }

  predicate SameKey(cert: bytes, anchor: bytes) {
    var p, q := ParseCert(cert), ParseCert(anchor);
    p.Ok? && q.Ok? && Text(p.value.spki, cert) == Text(q.value.spki, anchor)
  }

  /** Certificate `i` is signed by the next one, which is an authority unless it is the anchor, or by the anchor. */
  predicate Link(c: Suite, t: Trust, certs: seq<bytes>, i: nat)
    requires i < |certs|
  {
    if i + 1 == |certs| then Signed(c, certs[i], t.anchor)
    else Signed(c, certs[i], certs[i + 1]) && (certs[i + 1] == t.anchor || Authority(certs[i + 1], t.now))
  }

  /** The first `k` certificates are linked, and the chain ends there or goes on with the anchor's own key. */
  ghost predicate Reaches(c: Suite, t: Trust, certs: seq<bytes>, k: nat) {
    && k <= |certs| && (k < |certs| ==> SameKey(certs[k], t.anchor))
    && forall i :: 0 <= i < k ==> Link(c, t, certs, i)
  }

  // ----- the leaf --------------------------------------------------------------------------

  /** One of the names stored in the certificate, or its common name if none is stored. */
  ghost predicate Names(der: bytes, p: Cert, host: bytes) {
    if p.ext.san != [] then exists s :: s in p.ext.san && HostName.NameMatches(Text(s, der), host)
    else p.cn.Some? && HostName.NameMatches(Text(p.cn.value, der), host)
  }

  /** It may sign handshakes and serve, carries the pinned key, names the server, and is in time. */
  ghost predicate Serves(der: bytes, id: Identity, now: int, spki: bytes) {
    && ParseCert(der).Ok?
    && var p := ParseCert(der).value;
    && p.spki.len <= 1024 && spki == Text(p.spki, der)
    && (p.ext.ku.Present? ==> p.ext.keyUsage % 256 >= 128)
    && (p.ext.eku.Present? ==> p.ext.serverAuth)
    && (id.pinned.Some? ==>
          id.pinned.value != [] && id.pinned.value == if p.keyAlg.KeyEcdsa? then spki else Text(p.pubKey, der))
    && (id.serverName.Some? ==> Names(der, p, id.serverName.value))
    && InPeriod(der, p, now)
  }

  // ----- the verdict -----------------------------------------------------------------------

  lemma PeriodIs(der: bytes, p: Cert, now: int)
    ensures CertTime.TimeVerdict(Text(p.notBefore, der), Text(p.notAfter, der), now) == Success <==> InPeriod(der, p, now)
  {
    hide CertTime.TimeOf, CertTime.Time.Epoch;
  }

  lemma LowBitIs(usage: nat)
    ensures usage / 4 % 2 == 1 <==> usage % 8 >= 4
  {
    var q, r := usage / 8, usage % 8;
    DivModUnique(usage, 4, 2 * q + r / 4, r % 4);
  }

  lemma HighBitIs(usage: nat)
    ensures usage / 0x80 % 2 == 1 <==> usage % 256 >= 128
  {
    var q, r := usage / 256, usage % 256;
    DivModUnique(usage, 128, 2 * q + r / 128, r % 128);
  }

  lemma LinkIs(c: Suite, t: Trust, certs: seq<bytes>, i: nat)
    requires i < |certs|
    ensures t.LinkOk(c, certs, i) <==> Link(c, t, certs, i)
  {
    hide ParseCert, Text, CertTime.TimeVerdict, InPeriod;
    var issuer := t.IssuerOf(certs, i);
    if ParseCert(issuer).Ok? {
      PeriodIs(issuer, ParseCert(issuer).value, t.now);
      LowBitIs(ParseCert(issuer).value.ext.keyUsage);
    }
  }

  lemma NamesIs(der: bytes, p: Cert, host: bytes)
    ensures NameOk(host, der, p) <==> Names(der, p, host)
  {
    hide HostName.NameMatches, Text;
  }

  lemma LeafIs(der: bytes, id: Identity, now: int, p: Cert)
    requires ParseCert(der) == Ok(p)
    ensures LeafOk(id, der, p, now) && p.spki.len <= LEAF_SPKI_SZ <==> Serves(der, id, now, Text(p.spki, der))
  {
    hide ParseCert, Text, CertTime.TimeVerdict, InPeriod, NameOk, Names;
    PeriodIs(der, p, now);
    HighBitIs(p.ext.keyUsage);
    if id.serverName.Some? {
      NamesIs(der, p, id.serverName.value);
    }
  }

  lemma ReachesIs(c: Suite, t: Trust, certs: seq<bytes>, k: nat)
    ensures t.Anchored(c, certs, k) <==> Reaches(c, t, certs, k)
  {
    hide Trust.LinkOk, Link, ParseCert, Text;
    forall i | 0 <= i < k && k <= |certs|
      ensures t.LinkOk(c, certs, i) <==> Link(c, t, certs, i)
    {
      LinkIs(c, t, certs, i);
    }
  }

  lemma WalkIs(c: Suite, t: Trust, certs: seq<bytes>)
    ensures t.Walk(c, certs, 0) == Success <==> exists k :: Reaches(c, t, certs, k)
  {
    hide Reaches, Trust.Anchored, Trust.Walk;
    WalkExactly(c, t, certs);
    forall k: nat
      ensures t.Anchored(c, certs, k) <==> Reaches(c, t, certs, k)
    {
      ReachesIs(c, t, certs, k);
    }
  }

  /**
   * A chain is accepted, with the leaf's key, if and only if it leads to the anchor, signature by
   * signature and through authorities in time, and its leaf may serve under the name, or the pinned key,
   * that the caller asks for.
   */
  lemma VerdictExactly(c: Suite, t: Trust, id: Identity, certs: seq<bytes>, spki: bytes)
    ensures ChainVerdict(c, t, id, certs) == Ok(spki)
      <==> certs != [] && Serves(certs[0], id, t.now, spki) && exists k :: Reaches(c, t, certs, k)
  {
    hide ParseCert, Text, LeafOk, Reaches, Trust.Walk;
    WalkIs(c, t, certs);
    if certs != [] && ParseCert(certs[0]).Ok? {
      var p := ParseCert(certs[0]).value;
      LeafIs(certs[0], id, t.now, p);
      assert Serves(certs[0], id, t.now, spki) ==> spki == Text(p.spki, certs[0]);
    }
  }

  /** Otherwise the status says whether there was no chain at all, or a key that is too long, or a bad chain. */
  lemma RefusedExactly(c: Suite, t: Trust, id: Identity, certs: seq<bytes>)
    requires ChainVerdict(c, t, id, certs).Fail?
    ensures ChainVerdict(c, t, id, certs).status
      == if certs == [] then InvalidArg
         else if (exists k :: Reaches(c, t, certs, k)) && ParseCert(certs[0]).Ok?
           && ParseCert(certs[0]).value.spki.len > 1024
         then CryptoErr else BadCert
  {
    hide ParseCert, Text, LeafOk, Reaches, Trust.Walk;
    WalkIs(c, t, certs);
  }

  /** In particular no leaf is accepted for a name that it does not carry. */
  lemma OtherNameRefused(c: Suite, t: Trust, id: Identity, certs: seq<bytes>)
    requires certs != [] && id.serverName.Some?
    requires ParseCert(certs[0]).Ok? ==> !Names(certs[0], ParseCert(certs[0]).value, id.serverName.value)
    ensures ChainVerdict(c, t, id, certs).Fail?
  {
    hide ParseCert, Reaches, ChainVerdict, Names;
    if ChainVerdict(c, t, id, certs).Ok? {
      VerdictExactly(c, t, id, certs, ChainVerdict(c, t, id, certs).value);
    }
  }
}
