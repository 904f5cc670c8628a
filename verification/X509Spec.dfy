/**
 * What the native certificate parser accepts and returns, read off the DER octets
 * (`wn_X509_Parse` in `wn_x509.c`, with host names and validity times compiled in).
 */
module X509Spec {
  import opened Bytes
  import opened Der

  // ----- results ---------------------------------------------------------------------------

  datatype Try<+T> = Ok(value: T) | Fail(status: Status) {
    predicate IsFailure() { Fail? }

    function PropagateFailure<U>(): Try<U>
      requires Fail?
    {
      Fail(status)
    }

    function Extract(): T
      requires Ok?
    {
      value
    }
  }

  const DECODE: Try<Header> := Fail(X509Decode)

  function Need(h: Option<Header>): (t: Try<Header>)
    ensures t.Ok? <==> h.Some?
    ensures t.Ok? ==> t.value == h.value
    ensures t.Fail? ==> t.status == X509Decode
  {
    if h.Some? then Ok(h.value) else DECODE
  }

  datatype KeyAlg = KeyUnknown | KeyEcdsa | KeyRsa | KeyEd25519
  datatype Curve = CurveNone | P256 | P384
  datatype SigAlg = SigUnknown | EcdsaSha256 | EcdsaSha384 | RsaSha256 | RsaSha384 | RsaSha512 | SigEd25519

  /** The flag bits, keyUsage, extKeyUsage and dNSName pool of a certificate. */
  datatype ExtInfo = ExtInfo(bc: Mark, ca: bool, ku: Mark, keyUsage: nat, eku: Mark, serverAuth: bool, anyUse: bool,
                             sanMark: Mark, san: seq<Slice>)

  // The SET and CRIT bits of one extension.
  datatype Mark = Absent | Present(critical: bool)

  const NO_EXTS: ExtInfo := ExtInfo(Absent, false, Absent, 0, Absent, false, false, Absent, [])

  datatype Cert = Cert(tbs: Slice, sig: Slice, pubKey: Slice, spki: Slice, notBefore: Slice, notAfter: Slice,
                       cn: Option<Slice>, sigAlg: SigAlg, keyAlg: KeyAlg, curve: Curve, ext: ExtInfo)

  // ----- tags and object identifiers -------------------------------------------------------

  const UTC_TIME: byte := 0x17
  const GENERALIZED_TIME: byte := 0x18
  const CTX0: byte := 0xA0
  const CTX3: byte := 0xA3
  const UID1: byte := 0x81
  const UID2: byte := 0x82
  const DNS_NAME: byte := 0x82

  const OID_CN: bytes := [0x55, 0x04, 0x03]
  const OID_BC: bytes := [0x55, 0x1D, 0x13]
  const OID_KU: bytes := [0x55, 0x1D, 0x0F]
  const OID_EKU: bytes := [0x55, 0x1D, 0x25]
  const OID_SAN: bytes := [0x55, 0x1D, 0x11]
  const OID_SERVER_AUTH: bytes := [0x2B, 0x06, 0x01, 0x05, 0x05, 0x07, 0x03, 0x01]
  const OID_ANY_USE: bytes := [0x55, 0x1D, 0x25, 0x00]

  const MAX_SAN: nat := 16
  const MAX_DNS_NAME: nat := 255

  function KeyAlgOf(oid: bytes): KeyAlg {
    if oid == [0x2A, 0x86, 0x48, 0xCE, 0x3D, 0x02, 0x01] then KeyEcdsa
    else if oid == [0x2A, 0x86, 0x48, 0x86, 0xF7, 0x0D, 0x01, 0x01, 0x01] then KeyRsa
    else if oid == [0x2B, 0x65, 0x70] then KeyEd25519
    else KeyUnknown
  }

  function CurveOf(oid: bytes): Curve {
    if oid == [0x2A, 0x86, 0x48, 0xCE, 0x3D, 0x03, 0x01, 0x07] then P256
    else if oid == [0x2B, 0x81, 0x04, 0x00, 0x22] then P384
    else CurveNone
  }

  function SigAlgOf(oid: bytes): SigAlg {
    if oid == [0x2A, 0x86, 0x48, 0xCE, 0x3D, 0x04, 0x03, 0x02] then EcdsaSha256
    else if oid == [0x2A, 0x86, 0x48, 0xCE, 0x3D, 0x04, 0x03, 0x03] then EcdsaSha384
    else if oid == [0x2A, 0x86, 0x48, 0x86, 0xF7, 0x0D, 0x01, 0x01, 0x0B] then RsaSha256
    else if oid == [0x2A, 0x86, 0x48, 0x86, 0xF7, 0x0D, 0x01, 0x01, 0x0C] then RsaSha384
    else if oid == [0x2A, 0x86, 0x48, 0x86, 0xF7, 0x0D, 0x01, 0x01, 0x0D] then RsaSha512
    else if oid == [0x2B, 0x65, 0x70] then SigEd25519
    else SigUnknown
  }

  predicate NoParams(a: SigAlg) { a.EcdsaSha256? || a.EcdsaSha384? || a.SigEd25519? }

  predicate IsRsa(a: SigAlg) { a.RsaSha256? || a.RsaSha384? || a.RsaSha512? }

  // ----- extension values: the octets of extnValue are der[idx .. end) ----------------------

  function BasicConstraintsAt(der: bytes, idx: nat, end: nat): Try<bool>
    requires idx <= end <= |der|
  {
    var s :- Need(ExactAt(der, idx, end, SEQ));
    if s.start < end && der[s.start] == BOOLEAN then
      var b :- Need(HeaderAt(der, s.start, end, BOOLEAN));
      if b.len != 1 || der[b.start] != 0xFF then Fail(X509Decode) else PathLenAt(der, b.End(), end, true)
    else PathLenAt(der, s.start, end, false)
  }

  // Only an optional pathLenConstraint may follow; its value is not looked at.
  function PathLenAt(der: bytes, idx: nat, end: nat, ca: bool): Try<bool>
    requires idx <= end <= |der|
  {
    if idx == end then Ok(ca) else
    var _ :- Need(ExactAt(der, idx, end, INTEGER));
    Ok(ca)
  }

  function KeyUsageAt(der: bytes, idx: nat, end: nat): Try<nat>
    requires idx <= end <= |der|
  {
    var b :- Need(ExactAt(der, idx, end, BIT_STRING));
    if b.len < 1 || der[b.start] > 7 then Fail(X509Decode)
    else if b.len >= 2 && der[b.End() - 1] % Pow2(der[b.start]) != 0 then Fail(X509Decode)
    else
      var usage := (if b.len >= 2 then der[b.start + 1]
          else 0) + (if b.len >= 3 then 0x100 * (der[b.start + 2] as int) else 0);
      if usage == 0 then Fail(X509Decode) else Ok(usage)
  }

  datatype Purposes = Purposes(serverAuth: bool, anyUse: bool) {
    function With(oid: bytes): Purposes {
      if oid == OID_SERVER_AUTH then this.(serverAuth := true)
      else if oid == OID_ANY_USE then this.(anyUse := true) else this
    }
  }

  function PurposesAt(der: bytes, idx: nat, end: nat, p: Purposes): Try<Purposes>
    requires idx <= end <= |der|
    decreases end - idx
  {
    if idx == end then Ok(p) else
    var o :- Need(HeaderAt(der, idx, end, OBJECT_ID));
    PurposesAt(der, o.End(), end, p.With(der[o.start..o.End()]))
  }

  function ExtKeyUsageAt(der: bytes, idx: nat, end: nat): Try<Purposes>
    requires idx <= end <= |der|
  {
    var s :- Need(ExactAt(der, idx, end, SEQ));
    if s.len == 0 then Fail(X509Decode) else PurposesAt(der, s.start, end, Purposes(false, false))
  }

  function NamesAt(der: bytes, idx: nat, end: nat, names: seq<Slice>): Try<seq<Slice>>
    requires idx <= end <= |der|
    decreases end - idx
  {
    if idx == end then Ok(names) else
    var h :- Need(HeaderAt(der, idx, end, der[idx]));
    if der[idx] != DNS_NAME then NamesAt(der, h.End(), end, names)
    else if h.len < 1 || h.len > MAX_DNS_NAME || 0 in der[h.start..h.End()] then Fail(X509Decode)
    else NamesAt(der, h.End(), end, if |names| < MAX_SAN then names + [Slice(h.start, h.len)] else names)
  }

  function AltNameAt(der: bytes, idx: nat, end: nat): Try<seq<Slice>>
    requires idx <= end <= |der|
  {
    var s :- Need(ExactAt(der, idx, end, SEQ));
    if s.len == 0 then Fail(X509Decode) else NamesAt(der, s.start, end, [])
  }

  // ----- the extension list ----------------------------------------------------------------

  /** One Extension: the content of its OID and of its value, and whether it is critical. */
  datatype RawExt = RawExt(oid: Header, critical: bool, value: Header)

  function CriticalAt(der: bytes, idx: nat, end: nat): (r: Try<(bool, nat)>)
    requires idx <= end <= |der|
    ensures r.Ok? ==> idx <= r.value.1 <= end
  {
    if idx < end && der[idx] == BOOLEAN then
      var b :- Need(HeaderAt(der, idx, end, BOOLEAN));
      if b.len != 1 || der[b.start] != 0xFF then Fail(X509Decode) else Ok((true, b.End()))
    else Ok((false, idx))
  }

  function ExtensionIn(der: bytes, start: nat, end: nat): (r: Try<RawExt>)
    requires start <= end <= |der|
    ensures r.Ok? ==> r.value.oid.End() <= end && r.value.value.End() == end
  {
    var o :- Need(HeaderAt(der, start, end, OBJECT_ID));
    var c :- CriticalAt(der, o.End(), end);
    var v :- Need(ExactAt(der, c.1, end, OCTET_STRING));
    Ok(RawExt(o, c.0, v))
  }

  /** What one extension adds; a repeated one, or an unknown critical one, is refused. */
  function Apply(der: bytes, x: RawExt, info: ExtInfo): Try<ExtInfo>
    requires x.oid.End() <= |der| && x.value.End() <= |der|
  {
    var oid := der[x.oid.start..x.oid.End()];
    var from, to, m := x.value.start, x.value.End(), Present(x.critical);
    if oid == OID_BC then
      if info.bc.Present? then Fail(X509Decode) else
      var ca :- BasicConstraintsAt(der, from, to);
      Ok(info.(bc := m, ca := ca))
    else if oid == OID_KU then
      if info.ku.Present? then Fail(X509Decode) else
      var usage :- KeyUsageAt(der, from, to);
      Ok(info.(ku := m, keyUsage := usage))
    else if oid == OID_EKU then
      if info.eku.Present? then Fail(X509Decode) else
      var p :- ExtKeyUsageAt(der, from, to);
      Ok(info.(eku := m, serverAuth := p.serverAuth, anyUse := p.anyUse))
    else if oid == OID_SAN then
      if info.sanMark.Present? then Fail(X509Decode) else
      var names :- AltNameAt(der, from, to);
      Ok(info.(sanMark := m, san := names))
    else if x.critical then Fail(X509CritExt)
    else Ok(info)
  }

  function ExtensionList(der: bytes, idx: nat, end: nat, info: ExtInfo): Try<ExtInfo>
    requires idx <= end <= |der|
    decreases end - idx
  {
    if idx == end then Ok(info) else
    var s :- Need(HeaderAt(der, idx, end, SEQ));
    var x :- ExtensionIn(der, s.start, s.End());
    var info1 :- Apply(der, x, info);
    ExtensionList(der, s.End(), end, info1)
  }

  /** Skip the unique identifiers, which need version 2 or later. */
  function UidsAt(der: bytes, idx: nat, end: nat, version: nat): (r: Try<nat>)
    requires idx <= end <= |der|
    ensures r.Ok? ==> idx <= r.value <= end && (r.value < end ==> der[r.value] == CTX3)
    decreases end - idx
  {
    if idx == end || der[idx] == CTX3 then Ok(idx)
    else if (der[idx] != UID1 && der[idx] != UID2) || version < 1 then Fail(X509Decode)
    else
      var h :- Need(HeaderAt(der, idx, end, der[idx]));
      UidsAt(der, h.End(), end, version)
  }

  function ExtensionsAt(der: bytes, idx: nat, end: nat, version: nat): Try<ExtInfo>
    requires idx <= end <= |der|
  {
    var p :- UidsAt(der, idx, end, version);
    if p == end then Ok(NO_EXTS)
    else if version != 2 then Fail(X509Decode)
    else
      var w :- Need(ExactAt(der, p, end, CTX3));
      var s :- Need(ExactAt(der, w.start, end, SEQ));
      if s.len == 0 then Fail(X509Decode) else ExtensionList(der, s.start, end, NO_EXTS)
  }

  // ----- subject common name ---------------------------------------------------------------

  function CnValueAt(der: bytes, idx: nat, end: nat): Option<Slice>
    requires idx <= end <= |der|
  {
    if idx == end || der[idx] !in {0x0C, 0x13, 0x14, 0x16} then None else
    var h := HeaderAt(der, idx, end, der[idx]);
    if h.None? || h.value.len < 1 || h.value.len > MAX_DNS_NAME || 0 in der[h.value.start..h.value.End()] then None
    else Some(Slice(h.value.start, h.value.len))
  }

  function CnInRdn(der: bytes, idx: nat, end: nat): Option<Slice>
    requires idx <= end <= |der|
    decreases end - idx
  {
    if idx == end then None else
    var a := HeaderAt(der, idx, end, SEQ);
    if a.None? then None else
    var o := HeaderAt(der, a.value.start, a.value.End(), OBJECT_ID);
    if o.None? then None else
    var cn := if der[o.value.start..o.value.End()] == OID_CN then CnValueAt(der, o.value.End(), a.value.End()) else None;
    if cn.Some? then cn else CnInRdn(der, a.value.End(), end)
  }

  /** The first acceptable commonName of an RDNSequence. */
  function CnAt(der: bytes, idx: nat, end: nat): Option<Slice>
    requires idx <= end <= |der|
    decreases end - idx
  {
    if idx == end then None else
    var r := HeaderAt(der, idx, end, SET_OF);
    if r.None? then None else
    var cn := CnInRdn(der, r.value.start, r.value.End());
    if cn.Some? then cn else CnAt(der, r.value.End(), end)
  }

  // ----- the fields in front of the extensions ---------------------------------------------

  function VersionAt(der: bytes, idx: nat, end: nat): (r: Try<(nat, nat)>)
    requires idx <= end <= |der|
    ensures r.Ok? ==> idx <= r.value.1 <= end
  {
    if idx < end && der[idx] == CTX0 then
      var w :- Need(HeaderAt(der, idx, end, CTX0));
      var v :- Need(HeaderAt(der, w.start, w.End(), INTEGER));
      if v.len != 1 || der[v.start] < 1 || der[v.start] > 2 || v.start + 1 != w.End() then Fail(X509Decode)
      else Ok((der[v.start], w.End()))
    else Ok((0, idx))
  }

  datatype Front = Front(version: nat, inner: Slice, next: nat)

  /** Version, serial number, inner signature algorithm and issuer. */
  function FrontAt(der: bytes, idx: nat, end: nat): (r: Try<Front>)
    requires idx <= end <= |der|
    ensures r.Ok? ==> idx <= r.value.next <= end && r.value.inner.off + r.value.inner.len <= end
  {
    var v :- VersionAt(der, idx, end);
    var serial :- Need(HeaderAt(der, v.1, end, INTEGER));
    if serial.len < 1 then Fail(X509Decode) else
    var inner :- Need(HeaderAt(der, serial.End(), end, SEQ));
    var issuer :- Need(HeaderAt(der, inner.End(), end, SEQ));
    Ok(Front(v.0, Slice(serial.End(), inner.End() - serial.End()), issuer.End()))
  }

  /** One Time as a whole tag-length-value; its length is kept in 16 bits. */
  function TimeAt(der: bytes, idx: nat, end: nat): (r: Try<(Slice, nat)>)
    requires idx <= end <= |der|
    ensures r.Ok? ==> idx < r.value.1 <= end && r.value.0.off + r.value.0.len <= end
  {
    if idx == end || (der[idx] != UTC_TIME && der[idx] != GENERALIZED_TIME) then Fail(X509Decode) else
    var h :- Need(HeaderAt(der, idx, end, der[idx]));
    Ok((Slice(idx, (h.End() - idx) % 0x1_0000), h.End()))
  }

  datatype Middle = Middle(notBefore: Slice, notAfter: Slice, cn: Option<Slice>, next: nat)

  /** Validity, which holds exactly two times, and subject. */
  function MiddleAt(der: bytes, idx: nat, end: nat): (r: Try<Middle>)
    requires idx <= end <= |der|
    ensures r.Ok? ==> idx <= r.value.next <= end
  {
    var val :- Need(HeaderAt(der, idx, end, SEQ));
    var nb :- TimeAt(der, val.start, val.End());
    var na :- TimeAt(der, nb.1, val.End());
    if na.1 != val.End() then Fail(X509Decode) else
    var subject :- Need(HeaderAt(der, val.End(), end, SEQ));
    Ok(Middle(nb.0, na.0, CnAt(der, subject.start, subject.End()), subject.End()))
  }

  /** Key type and curve of an AlgorithmIdentifier, whose parameters must have the right shape. */
  function AlgIdAt(der: bytes, idx: nat, end: nat): Try<(KeyAlg, Curve)>
    requires idx <= end <= |der|
  {
    var o :- Need(HeaderAt(der, idx, end, OBJECT_ID));
    var alg := KeyAlgOf(der[o.start..o.End()]);
    if alg == KeyEcdsa then
      var p :- Need(ExactAt(der, o.End(), end, OBJECT_ID));
      Ok((alg, CurveOf(der[p.start..p.End()])))
    else if alg == KeyRsa then
      var p :- Need(ExactAt(der, o.End(), end, NULL));
      if p.len != 0 then Fail(X509Decode) else Ok((alg, CurveNone))
    else if alg == KeyEd25519 && o.End() != end then Fail(X509Decode)
    else Ok((alg, CurveNone))
  }

  datatype Spki = Spki(spki: Slice, keyAlg: KeyAlg, curve: Curve, key: Slice, next: nat)

  function SpkiAt(der: bytes, idx: nat, end: nat): (r: Try<Spki>)
    requires idx <= end <= |der|
    ensures r.Ok? ==> idx <= r.value.next <= end
  {
    var s :- Need(HeaderAt(der, idx, end, SEQ));
    var alg :- Need(HeaderAt(der, s.start, s.End(), SEQ));
    var a :- AlgIdAt(der, alg.start, alg.End());
    var key :- Need(BitStringAt(der, alg.End(), s.End()));
    if key.End() != s.End() then Fail(X509Decode)
    else Ok(Spki(Slice(idx, s.End() - idx), a.0, a.1, Slice(key.start, key.len), s.End()))
  }

  // ----- signature and the whole certificate -----------------------------------------------

  function ParamsOk(der: bytes, alg: SigAlg, at: nat, end: nat): bool
    requires at <= end <= |der|
  {
    if NoParams(alg) then at == end
    else if IsRsa(alg) then at + 2 == end && der[at] == NULL && der[at + 1] == 0
    else true
  }

  /** The outer algorithm equals the inner one octet for octet; the signature ends the certificate. */
  function SignatureAt(der: bytes, idx: nat, inner: Slice): Try<(SigAlg, Slice)>
    requires idx <= |der| && inner.In(der)
  {
    var outer :- Need(HeaderAt(der, idx, |der|, SEQ));
    var o :- Need(HeaderAt(der, outer.start, outer.End(), OBJECT_ID));
    var alg := SigAlgOf(der[o.start..o.End()]);
    if der[idx..outer.End()] != inner.Of(der) || !ParamsOk(der, alg, o.End(), outer.End()) then Fail(X509Decode) else
    var sig :- Need(BitStringAt(der, outer.End(), |der|));
    if sig.End() != |der| then Fail(X509Decode) else Ok((alg, Slice(sig.start, sig.len)))
  }

  /** The record as the parser leaves it on failure. */
  const CLEARED: Cert := Cert(Slice(0, 0), Slice(0, 0), Slice(0, 0), Slice(0, 0), Slice(0, 0), Slice(0, 0), None,
                              SigUnknown, KeyUnknown, CurveNone, NO_EXTS)

  /** A single certificate: nothing may follow the outer SEQUENCE. */
  function ParseCert(der: bytes): Try<Cert> {
    if |der| < 2 || |der| > MAX_BUFFER then Fail(InvalidArg) else
    var outer :- Need(ExactAt(der, 0, |der|, SEQ));
    CertBodyAt(der, outer.start)
  }

  function CertBodyAt(der: bytes, start: nat): Try<Cert>
    requires start <= |der|
  {
    var h :- Need(HeaderAt(der, start, |der|, SEQ));
    var t :- TbsAt(der, h.start, h.End());
    var sig :- SignatureAt(der, h.End(), t.inner);
    Ok(Cert(Slice(start, h.End() - start), sig.1, t.spki.key, t.spki.spki, t.mid.notBefore, t.mid.notAfter, t.mid.cn,
            sig.0, t.spki.keyAlg, t.spki.curve, t.ext))
  }

  datatype Tbs = Tbs(inner: Slice, mid: Middle, spki: Spki, ext: ExtInfo)

  /** The fields of the tbsCertificate, which bounds them all. */
  function TbsAt(der: bytes, idx: nat, end: nat): (r: Try<Tbs>)
    requires idx <= end <= |der|
    ensures r.Ok? ==> r.value.inner.In(der)
  {
    var front :- FrontAt(der, idx, end);
    var mid :- MiddleAt(der, front.next, end);
    var spki :- SpkiAt(der, mid.next, end);
    var ext :- ExtensionsAt(der, spki.next, end, front.version);
    Ok(Tbs(front.inner, mid, spki, ext))
  }
}
