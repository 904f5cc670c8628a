/** Certificates as abstract values: their DER encoding, and what their extensions mean. */
module X509Grammar {
  import opened Bytes
  import opened Der
  import opened X509Spec

  // ----- abstract certificates -------------------------------------------------------------

  datatype GeneralName = GeneralName(tag: byte, content: bytes)

  datatype ExtValue =
    | BasicConstraints(ca: bool, pathLen: Option<bytes>)
    | KeyUsage(unused: byte, bits: bytes)
    | ExtKeyUsage(purposes: seq<bytes>)
    | AltNames(names: seq<GeneralName>)
    | Other(oid: bytes, octets: bytes)
  {
    function Oid(): bytes {
      match this
      case BasicConstraints(_, _) => OID_BC
      case KeyUsage(_, _) => OID_KU
      case ExtKeyUsage(_) => OID_EKU
      case AltNames(_) => OID_SAN
      case Other(oid, _) => oid
    }

    function Encode(): bytes {
      match this
      case BasicConstraints(ca, pathLen) =>
        Tlv(SEQ, (if ca then TRUE_TLV else []) + (if pathLen.Some? then Tlv(INTEGER, pathLen.value) else []))
      case KeyUsage(unused, bits) => Tlv(BIT_STRING, [unused] + bits)
      case ExtKeyUsage(purposes) => Tlv(SEQ, EncOids(purposes))
      case AltNames(names) => Tlv(SEQ, EncNames(names))
      case Other(_, octets) => octets
    }
  }

  const TRUE_TLV: bytes := [BOOLEAN, 1, 0xFF]

  function EncOids(os: seq<bytes>): bytes {
    if os == [] then [] else Tlv(OBJECT_ID, os[0]) + EncOids(os[1..])
  }

  function EncNames(ns: seq<GeneralName>): bytes {
    if ns == [] then [] else Tlv(ns[0].tag, ns[0].content) + EncNames(ns[1..])
  }

  datatype Extension = Extension(critical: bool, value: ExtValue) {
    function Content(): bytes {
      Tlv(OBJECT_ID, value.Oid()) + ((if critical then TRUE_TLV else []) + Tlv(OCTET_STRING, value.Encode()))
    }
  }

  function EncExts(es: seq<Extension>): bytes {
    if es == [] then [] else Tlv(SEQ, es[0].Content()) + EncExts(es[1..])
  }

  /** One attribute of a distinguished name; a relative name is a set of them. */
  datatype Attribute = Attribute(oid: bytes, tag: byte, content: bytes) {
    function Content(): bytes { Tlv(OBJECT_ID, oid) + Tlv(tag, content) }

    /** A commonName that can stand for a host: a text string without NUL, neither empty nor too long. */
    predicate NamesHost() {
      oid == OID_CN && tag in {0x0C, 0x13, 0x14, 0x16} && HostLike(content)
    }
  }

  function EncAttributes(atts: seq<Attribute>): bytes {
    if atts == [] then [] else Tlv(SEQ, atts[0].Content()) + EncAttributes(atts[1..])
  }

  function EncName(rdns: seq<seq<Attribute>>): bytes {
    if rdns == [] then [] else Tlv(SET_OF, EncAttributes(rdns[0])) + EncName(rdns[1..])
  }

  function FirstIn(atts: seq<Attribute>): Option<bytes> {
    if atts == [] then None else if atts[0].NamesHost() then Some(atts[0].content) else FirstIn(atts[1..])
  }

  /** The commonName of a distinguished name. */
  function CommonName(rdns: seq<seq<Attribute>>): Option<bytes> {
    if rdns == [] then None else if FirstIn(rdns[0]).Some? then FirstIn(rdns[0]) else CommonName(rdns[1..])
  }

  datatype AlgId = AlgId(oid: bytes, params: bytes) {
    function Content(): bytes { Tlv(OBJECT_ID, oid) + params }
    function Encode(): bytes { Tlv(SEQ, Content()) }
  }

  datatype Field = Field(tag: byte, content: bytes) {
    function Encode(): bytes { Tlv(tag, content) }
  }

  function EncFields(fs: seq<Field>): bytes {
    if fs == [] then [] else fs[0].Encode() + EncFields(fs[1..])
  }

  datatype Certificate = Certificate(
    version: nat, serial: bytes, sigAlg: AlgId, issuer: bytes, notBefore: Field, notAfter: Field, subject: bytes,
    keyAlg: AlgId, key: bytes, uids: seq<Field>, exts: Option<seq<Extension>>, sig: bytes)
  {
    function VersionBytes(): bytes {
      if version == 0 then [] else Tlv(CTX0, Tlv(INTEGER, [version % 0x100]))
    }

    function FrontBytes(): bytes {
      VersionBytes() + (Tlv(INTEGER, serial) + (sigAlg.Encode() + Tlv(SEQ, issuer)))
    }

    function MiddleBytes(): bytes {
      Tlv(SEQ, notBefore.Encode() + notAfter.Encode()) + Tlv(SEQ, subject)
    }

    function Spki(): bytes { Tlv(SEQ, keyAlg.Encode() + Tlv(BIT_STRING, [0] + key)) }

    function ExtBytes(): bytes {
      EncFields(uids) + if exts.None? then [] else Tlv(CTX3, Tlv(SEQ, EncExts(exts.value)))
    }

    function TbsContent(): bytes { FrontBytes() + (MiddleBytes() + (Spki() + ExtBytes())) }

    function Tbs(): bytes { Tlv(SEQ, TbsContent()) }

    function Encode(): bytes { Tlv(SEQ, Tbs() + (sigAlg.Encode() + Tlv(BIT_STRING, [0] + sig))) }

    /** The profile the parser accepts, extension values aside. */
    ghost predicate Framed() {
      && version <= 2 && serial != []
      && SigParamsOk(sigAlg) && KeyParamsOk(keyAlg)
      && IsTime(notBefore) && IsTime(notAfter)
      && (uids != [] ==> version >= 1) && (forall i :: 0 <= i < |uids| ==> uids[i].tag in {UID1, UID2})
      && (exts.Some? ==> version == 2 && exts.value != [])
      && (exts.Some? ==> forall i :: 0 <= i < |exts.value| ==> Plain(exts.value[i].value))
    }
  }

  predicate IsTime(f: Field) { f.tag in {UTC_TIME, GENERALIZED_TIME} }

  /** What the parser keeps of a time: all of it, unless its length does not fit 16 bits. */
  function Kept(f: Field): bytes { f.Encode()[..|f.Encode()| % 0x1_0000] }

  predicate SigParamsOk(a: AlgId) {
    var alg := SigAlgOf(a.oid);
    (NoParams(alg) ==> a.params == []) && (IsRsa(alg) ==> a.params == [NULL, 0])
  }

  ghost predicate KeyParamsOk(a: AlgId) {
    match KeyAlgOf(a.oid)
    case KeyEcdsa => exists curve :: a.params == Tlv(OBJECT_ID, curve)
    case KeyRsa => a.params == [NULL, 0]
    case KeyEd25519 => a.params == []
    case KeyUnknown => true
  }

  // An extension of no recognised kind has an unrecognised identifier.
  predicate Plain(v: ExtValue) {
    v.Other? ==> v.oid != OID_BC && v.oid != OID_KU && v.oid != OID_EKU && v.oid != OID_SAN
  }

  // ----- the meaning of an extension list --------------------------------------------------

  /** As ExtInfo, with the names themselves instead of slices. */
  datatype Summary = Summary(bc: Mark, ca: bool, ku: Mark, keyUsage: nat, eku: Mark, serverAuth: bool, anyUse: bool,
                             sanMark: Mark, san: seq<bytes>)

  const EMPTY: Summary := Summary(Absent, false, Absent, 0, Absent, false, false, Absent, [])

  function UsageOf(unused: byte, bits: bytes): Try<nat> {
    if unused > 7 || (bits != [] && bits[|bits| - 1] % Pow2(unused) != 0) then Fail(X509Decode) else
    var usage := (if |bits| >= 1 then bits[0] else 0) + (if |bits| >= 2 then 0x100 * (bits[1] as int) else 0);
    if usage == 0 then Fail(X509Decode) else Ok(usage)
  }

  predicate HostLike(n: bytes) { 1 <= |n| <= MAX_DNS_NAME && 0 !in n }

  function DnsNames(ns: seq<GeneralName>): seq<bytes> {
    if ns == [] then [] else (if ns[0].tag == DNS_NAME then [ns[0].content] else []) + DnsNames(ns[1..])
  }

  predicate AllHostLike(ns: seq<GeneralName>) {
    forall i :: 0 <= i < |ns| ==> ns[i].tag == DNS_NAME ==> HostLike(ns[i].content)
  }

  function FirstNames(names: seq<bytes>): seq<bytes> {
    if |names| <= MAX_SAN then names else names[..MAX_SAN]
  }

  /** The effect of one extension: none is repeated, and an unknown one must not be critical. */
  function Learn(e: Extension, s: Summary): Try<Summary> {
    var m := Present(e.critical);
    match e.value
    case BasicConstraints(ca, _) =>
      if s.bc.Present? then Fail(X509Decode) else Ok(s.(bc := m, ca := ca))
    case KeyUsage(unused, bits) =>
      if s.ku.Present? then Fail(X509Decode) else
      var usage :- UsageOf(unused, bits);
      Ok(s.(ku := m, keyUsage := usage))
    case ExtKeyUsage(os) =>
      if s.eku.Present? || os == [] then Fail(X509Decode)
      else Ok(s.(eku := m, serverAuth := OID_SERVER_AUTH in os, anyUse := OID_ANY_USE in os))
    case AltNames(ns) =>
      if s.sanMark.Present? || ns == [] || !AllHostLike(ns) then Fail(X509Decode)
      else Ok(s.(sanMark := m, san := FirstNames(DnsNames(ns))))
    case Other(_, _) => if e.critical then Fail(X509CritExt) else Ok(s)
  }

  /** The extension list folded from left to right. */
  function Fold(es: seq<Extension>, s: Summary): Try<Summary>
    decreases |es|
  {
    if es == [] then Ok(s) else
    var s1 :- Learn(es[0], s);
    Fold(es[1..], s1)
  }
}
