/** `wn_X509Cert` and the parser that fills it (`wn_x509.c`). */
module X509 {
  import opened Bytes
  import opened Der
  import opened X509Spec

  /** The outcome of a method that reports `ret` and, on success, has found `value`. */
  function Done<T>(ret: Status, value: T): Try<T> { if ret == Success then Ok(value) else Fail(ret) }

  class X509Cert {
    var tbs: Slice
    var sig: Slice
    var pubKey: Slice
    var spki: Slice
    var notBefore: Slice
    var notAfter: Slice
    var cn: Option<Slice>
    var sigAlg: SigAlg
    var keyAlg: KeyAlg
    var curve: Curve
    // flags, keyUsage, extKeyUsage and the dNSName pool
    var bc: Mark
    var ca: bool
    var ku: Mark
    var keyUsage: nat
    var eku: Mark
    var serverAuth: bool
    var anyUse: bool
    var sanMark: Mark
    var san: seq<Slice>

    constructor ()
      ensures Exts() == NO_EXTS
    {
      tbs, sig, pubKey, spki := Slice(0, 0), Slice(0, 0), Slice(0, 0), Slice(0, 0);
      notBefore, notAfter, cn := Slice(0, 0), Slice(0, 0), None;
      sigAlg, keyAlg, curve := SigUnknown, KeyUnknown, CurveNone;
      bc, ca, ku, keyUsage := Absent, false, Absent, 0;
      eku, serverAuth, anyUse, sanMark, san := Absent, false, false, Absent, [];
    }

    ghost function Exts(): ExtInfo
      reads this
    {
      ExtInfo(bc, ca, ku, keyUsage, eku, serverAuth, anyUse, sanMark, san)
    }

    ghost function State(): Cert
      reads this
    {
      Cert(tbs, sig, pubKey, spki, notBefore, notAfter, cn, sigAlg, keyAlg, curve, Exts())
    }

    method Zero()
      modifies this
      ensures State() == CLEARED
    {
      ZeroExts();
      tbs, sig, pubKey, spki := Slice(0, 0), Slice(0, 0), Slice(0, 0), Slice(0, 0);
      notBefore, notAfter, cn := Slice(0, 0), Slice(0, 0), None;
      sigAlg, keyAlg, curve := SigUnknown, KeyUnknown, CurveNone;
    }

    method ZeroExts()
      modifies this`bc, this`ca, this`ku, this`keyUsage, this`eku, this`serverAuth, this`anyUse, this`sanMark, this`san
      ensures Exts() == NO_EXTS
    {
      bc, ca, ku, keyUsage := Absent, false, Absent, 0;
      eku, serverAuth, anyUse, sanMark, san := Absent, false, false, Absent, [];
    }

    // ----- extension values ----------------------------------------------------------------

    method ExtBasicConstraints(der: bytes, from: nat, end: nat, crit: bool) returns (ret: Status)
      requires from <= end <= |der| <= MAX_BUFFER && !ca
      modifies this`bc, this`ca
      ensures BasicConstraintsAt(der, from, end) == Done(ret, ca)
      ensures ret == Success ==> bc == Present(crit)
    {
      hide HeaderAt;
      bc := Present(crit);
      var idx, len, bLen := from, 0, 0;
      ret, idx, len := GetHeader(der, SEQ, from, end);
      if ret == Success && idx + len != end {
        ret := X509Decode;
      }
      if ret == Success && idx < end && der[idx] == BOOLEAN {
        ret, idx, bLen := GetHeader(der, BOOLEAN, idx, end);
        if ret == Success && bLen != 1 {
          ret := X509Decode;
        }
        if ret == Success {
          if der[idx] == 0xFF {
            ca := true;
          } else {
            ret := X509Decode;
          }
          idx := idx + bLen;
        }
      }
      if ret == Success && idx < end {
        ret, idx, bLen := GetHeader(der, INTEGER, idx, end);
        idx := idx + bLen;
      }
      if ret == Success && idx != end {
        ret := X509Decode;
      }
    }

    method ExtKeyUsage(der: bytes, from: nat, end: nat, crit: bool) returns (ret: Status)
      requires from <= end <= |der| <= MAX_BUFFER && keyUsage == 0
      modifies this`ku, this`keyUsage
      ensures KeyUsageAt(der, from, end) == Done(ret, keyUsage)
      ensures ret == Success ==> ku == Present(crit)
    {
      hide ExactAt, Pow2;
      ku := Present(crit);
      var idx, kuLen := from, 0;
      ret, idx, kuLen := GetHeaderExact(der, BIT_STRING, from, end);
      if ret == Success && (kuLen < 1 || der[idx] > 7) {
        ret := X509Decode;
      }
      if ret == Success && kuLen >= 2 && der[idx + kuLen - 1] % Pow2(der[idx]) != 0 {
        ret := X509Decode;
      }
      if ret == Success {
        if kuLen >= 2 {
          keyUsage := der[idx + 1];
        }
        if kuLen >= 3 {
          keyUsage := keyUsage + 0x100 * (der[idx + 2] as int);
        }
        if keyUsage == 0 {
          ret := X509Decode;
        }
      }
    }

    method ExtExtKeyUsage(der: bytes, from: nat, end: nat, crit: bool) returns (ret: Status)
      requires from <= end <= |der| <= MAX_BUFFER && !serverAuth && !anyUse
      modifies this`eku, this`serverAuth, this`anyUse
      ensures ExtKeyUsageAt(der, from, end) == Done(ret, Purposes(serverAuth, anyUse))
      ensures ret == Success ==> eku == Present(crit)
    {
      hide HeaderAt;
      eku := Present(crit);
      var idx, seqLen, oidLen := from, 0, 0;
      ret, idx, seqLen := GetHeader(der, SEQ, from, end);
      if ret == Success && (idx + seqLen != end || seqLen == 0) {
        ret := X509Decode;
      }
      ghost var goal := ExtKeyUsageAt(der, from, end);
      while ret == Success && idx < end
        invariant eku == Present(crit) && (ret == Success ==> idx <= end)
        invariant if ret == Success then goal == PurposesAt(der, idx, end, Purposes(serverAuth, anyUse))
                  else goal == Fail(ret)
        decreases end - idx, ret == Success
      {
        var start;
        ret, start, oidLen := GetHeader(der, OBJECT_ID, idx, end);
        if ret == Success {
          if der[start..start + oidLen] == OID_SERVER_AUTH {
            serverAuth := true;
          } else if der[start..start + oidLen] == OID_ANY_USE {
            anyUse := true;
          }
          idx := start + oidLen;
        }
      }
    }

    method ExtAltName(der: bytes, from: nat, end: nat, crit: bool) returns (ret: Status)
      requires from <= end <= |der| <= MAX_BUFFER && san == []
      modifies this`sanMark, this`san
      ensures AltNameAt(der, from, end) == Done(ret, san)
      ensures ret == Success ==> sanMark == Present(crit)
    {
      hide HeaderAt;
      sanMark := Present(crit);
      var idx, seqLen, nameLen := from, 0, 0;
      ret, idx, seqLen := GetHeader(der, SEQ, from, end);
      if ret == Success && (idx + seqLen != end || seqLen == 0) {
        ret := X509Decode;
      }
      ghost var goal := AltNameAt(der, from, end);
      while ret == Success && idx < end
        invariant sanMark == Present(crit) && (ret == Success ==> idx <= end)
        invariant if ret == Success then goal == NamesAt(der, idx, end, san) else goal == Fail(ret)
        decreases end - idx, ret == Success
      {
        var tag := der[idx];
        var start;
        ret, start, nameLen := GetHeader(der, tag, idx, end);
        if ret == Success {
          if tag == DNS_NAME {
            if nameLen < 1 || nameLen > MAX_DNS_NAME || 0 in der[start..start + nameLen] {
              ret := X509Decode;
            } else if |san| < MAX_SAN {
              san := san + [Slice(start, nameLen)];
            }
          }
          if ret == Success {
            idx := start + nameLen;
          }
        }
      }
    }

    // ----- the extension list --------------------------------------------------------------

    // What has not been seen is still zero.
    ghost predicate Fresh()
      reads this
    {
      && (bc.Absent? ==> !ca) && (ku.Absent? ==> keyUsage == 0)
      && (eku.Absent? ==> !serverAuth && !anyUse) && (sanMark.Absent? ==> san == [])
    }

    /** The four recognised extensions are dispatched on; `x` is the extension just framed. */
    method ApplyExtension(der: bytes, x: RawExt) returns (ret: Status)
      requires |der| <= MAX_BUFFER && x.oid.End() <= |der| && x.value.End() <= |der| && Fresh()
      modifies this`bc, this`ca, this`ku, this`keyUsage, this`eku, this`serverAuth, this`anyUse, this`sanMark, this`san
      ensures Apply(der, x, old(Exts())) == Done(ret, Exts()) && (ret == Success ==> Fresh())
    {
      hide BasicConstraintsAt, KeyUsageAt, ExtKeyUsageAt, AltNameAt;
      ret := Success;
      var oid := der[x.oid.start..x.oid.End()];
      var from, to := x.value.start, x.value.End();
      if oid == OID_BC {
        if bc.Present? {
          ret := X509Decode;
        } else {
          ret := ExtBasicConstraints(der, from, to, x.critical);
        }
      } else if oid == OID_KU {
        if ku.Present? {
          ret := X509Decode;
        } else {
          ret := ExtKeyUsage(der, from, to, x.critical);
        }
      } else if oid == OID_EKU {
        if eku.Present? {
          ret := X509Decode;
        } else {
          ret := ExtExtKeyUsage(der, from, to, x.critical);
        }
      } else if oid == OID_SAN {
        if sanMark.Present? {
          ret := X509Decode;
        } else {
          ret := ExtAltName(der, from, to, x.critical);
        }
      } else if x.critical {
        ret := X509CritExt;
      }
    }

    method FrameExtension(der: bytes, from: nat, exEnd: nat) returns (ret: Status, x: RawExt)
      requires from <= exEnd <= |der| <= MAX_BUFFER
      ensures ExtensionIn(der, from, exEnd) == Done(ret, x)
    {
      hide HeaderAt;
      var idx, oidAt, oidLen, bLen, valLen, crit := from, from, 0, 0, 0, false;
      ret, oidAt, oidLen := GetHeader(der, OBJECT_ID, from, exEnd);
      idx := oidAt + oidLen;
      if ret == Success && idx < exEnd && der[idx] == BOOLEAN {
        ret, idx, bLen := GetHeader(der, BOOLEAN, idx, exEnd);
        if ret == Success && bLen != 1 {
          ret := X509Decode;
        }
        if ret == Success && der[idx] != 0xFF {
          ret := X509Decode;
        }
        crit := true;
        idx := idx + bLen;
      }
      if ret == Success {
        ret, idx, valLen := GetHeader(der, OCTET_STRING, idx, exEnd);
      }
      if ret == Success && idx + valLen != exEnd {
        ret := X509Decode;
      }
      x := RawExt(Header(oidAt, oidLen), crit, Header(idx, valLen));
    }

    method ParseExtensionList(der: bytes, from: nat, extEnd: nat) returns (ret: Status)
      requires from <= extEnd <= |der| <= MAX_BUFFER && Fresh()
      modifies this`bc, this`ca, this`ku, this`keyUsage, this`eku, this`serverAuth, this`anyUse, this`sanMark, this`san
      ensures ExtensionList(der, from, extEnd, old(Exts())) == Done(ret, Exts())
    {
      hide HeaderAt, Apply, ExtensionIn;
      ret := Success;
      var idx := from;
      ghost var goal := ExtensionList(der, from, extEnd, Exts());
      while ret == Success && idx < extEnd
        invariant idx <= extEnd && (ret == Success ==> Fresh())
        invariant if ret == Success then goal == ExtensionList(der, idx, extEnd, Exts()) else goal == Fail(ret)
        decreases extEnd - idx, ret == Success
      {
        var start, len, x;
        ret, start, len := GetHeader(der, SEQ, idx, extEnd);
        if ret != Success {
          break;
        }
        ret, x := FrameExtension(der, start, start + len);
        if ret != Success {
          break;
        }
        ret := ApplyExtension(der, x);
        if ret == Success {
          idx := start + len;
        }
      }
    }

    method SkipUids(der: bytes, from: nat, tbsEnd: nat, version: nat) returns (ret: Status, idx: nat)
      requires from <= tbsEnd <= |der| <= MAX_BUFFER
      ensures idx <= tbsEnd && UidsAt(der, from, tbsEnd, version) == Done(ret, idx)
    {
      hide HeaderAt;
      ret, idx := Success, from;
      ghost var goal := UidsAt(der, from, tbsEnd, version);
      while ret == Success && idx < tbsEnd
        invariant idx <= tbsEnd
        invariant if ret == Success then goal == UidsAt(der, idx, tbsEnd, version) else goal == Fail(ret)
        decreases tbsEnd - idx, ret == Success
      {
        if der[idx] == CTX3 {
          break;
        }
        if (der[idx] != UID1 && der[idx] != UID2) || version < 1 {
          ret := X509Decode;
          break;
        }
        var start, len;
        ret, start, len := GetHeader(der, der[idx], idx, tbsEnd);
        if ret == Success {
          idx := start + len;
        }
      }
    }

    /** `wn_ParseExtensions`. */
    method ParseExtensions(der: bytes, from: nat, tbsEnd: nat, version: nat) returns (ret: Status)
      requires from <= tbsEnd <= |der| <= MAX_BUFFER && Exts() == NO_EXTS
      modifies this`bc, this`ca, this`ku, this`keyUsage, this`eku, this`serverAuth, this`anyUse, this`sanMark, this`san
      ensures ExtensionsAt(der, from, tbsEnd, version) == Done(ret, Exts())
    {
      hide HeaderAt, UidsAt, ExtensionList;
      var idx, len := from, 0;
      ret, idx := SkipUids(der, from, tbsEnd, version);
      if ret == Success && idx < tbsEnd && version != 2 {
        ret := X509Decode;
      }
      if ret == Success && idx < tbsEnd {
        ret, idx, len := GetHeader(der, CTX3, idx, tbsEnd);
        if ret == Success && idx + len != tbsEnd {
          ret := X509Decode;
        }
        if ret == Success {
          ret, idx, len := GetHeader(der, SEQ, idx, tbsEnd);
        }
        if ret == Success && (idx + len != tbsEnd || len == 0) {
          ret := X509Decode;
        }
        if ret == Success {
          ret := ParseExtensionList(der, idx, tbsEnd);
        }
      }
    }

    // ----- subject ---------------------------------------------------------------------------

    method CnValue(der: bytes, idx: nat, atvEnd: nat) returns (name: Option<Slice>)
      requires idx <= atvEnd <= |der| <= MAX_BUFFER
      ensures name == CnValueAt(der, idx, atvEnd)
    {
      hide HeaderAt;
      name := None;
      if idx < atvEnd {
        var valTag := der[idx];
        if valTag == 0x0C || valTag == 0x13 || valTag == 0x14 || valTag == 0x16 {
          var ret, start, valLen := GetHeader(der, valTag, idx, atvEnd);
          if ret == Success && valLen >= 1 && valLen <= MAX_DNS_NAME && 0 !in der[start..start + valLen] {
            name := Some(Slice(start, valLen));
          }
        }
      }
    }

    /** `wn_FindCN`: the first acceptable commonName; malformed parts end the search where they stand. */
    method FindCN(der: bytes, from: nat, end: nat) returns (name: Option<Slice>)
      requires from <= end <= |der| <= MAX_BUFFER
      ensures name == CnAt(der, from, end)
    {
      hide HeaderAt, CnValueAt, CnInRdn;
      name := None;
      var idx := from;
      while idx < end && name == None
        invariant idx <= end
        invariant CnAt(der, from, end) == if name.Some? then name else CnAt(der, idx, end)
        decreases end - idx
      {
        var ret, start, rdnLen := GetHeader(der, SET_OF, idx, end);
        if ret != Success {
          break;
        }
        name := FindInRdn(der, start, start + rdnLen);
        idx := start + rdnLen;
      }
    }

    method FindInRdn(der: bytes, from: nat, rdnEnd: nat) returns (name: Option<Slice>)
      requires from <= rdnEnd <= |der| <= MAX_BUFFER
      ensures name == CnInRdn(der, from, rdnEnd)
    {
      hide HeaderAt, CnValueAt;
      name := None;
      var idx := from;
      while idx < rdnEnd && name == None
        invariant idx <= rdnEnd
        invariant CnInRdn(der, from, rdnEnd) == if name.Some? then name else CnInRdn(der, idx, rdnEnd)
        decreases rdnEnd - idx
      {
        var ret, start, atvLen := GetHeader(der, SEQ, idx, rdnEnd);
        if ret != Success {
          break;
        }
        var atvEnd := start + atvLen;
        var oidLen;
        ret, idx, oidLen := GetHeader(der, OBJECT_ID, start, atvEnd);
        if ret != Success {
          break;
        }
        if der[idx..idx + oidLen] == OID_CN {
          name := CnValue(der, idx + oidLen, atvEnd);
        }
        idx := atvEnd;
      }
    }

    // ----- the certificate -----------------------------------------------------------------

    /** Version, serial number, inner signature algorithm and issuer. */
    method ParseFront(der: bytes, from: nat, tbsEnd: nat) returns (ret: Status, f: Front)
      requires from <= tbsEnd <= |der| <= MAX_BUFFER
      ensures FrontAt(der, from, tbsEnd) == Done(ret, f)
    {
      hide HeaderAt, VersionAt;
      f := Front(0, Slice(0, 0), from);
      var idx, len, version := from, 0, 0;
      ret, version, idx := ParseVersion(der, from, tbsEnd);
      if ret == Success {
        ret, idx, len := GetHeader(der, INTEGER, idx, tbsEnd);
      }
      if ret == Success && len < 1 {
        ret := X509Decode;
      }
      var innerBegin, inner := 0, Slice(0, 0);
      if ret == Success {
        idx := idx + len;
        innerBegin := idx;
        ret, idx, len := GetHeader(der, SEQ, idx, tbsEnd);
      }
      if ret == Success {
        inner := Slice(innerBegin, len + (idx - innerBegin));
        idx := idx + len;
        ret, idx, len := GetHeader(der, SEQ, idx, tbsEnd);
      }
      if ret == Success {
        f := Front(version, inner, idx + len);
      }
    }

    method ParseVersion(der: bytes, from: nat, tbsEnd: nat) returns (ret: Status, version: nat, idx: nat)
      requires from <= tbsEnd <= |der| <= MAX_BUFFER
      ensures VersionAt(der, from, tbsEnd) == Done(ret, (version, idx))
    {
      hide HeaderAt;
      ret, version, idx := Success, 0, from;
      if idx < tbsEnd && der[idx] == CTX0 {
        var len, verEnd;
        ret, idx, len := GetHeader(der, CTX0, idx, tbsEnd);
        if ret == Success {
          verEnd := idx + len;
          ret, idx, len := GetHeader(der, INTEGER, idx, verEnd);
        }
        if ret == Success {
          if len != 1 || der[idx] < 1 || der[idx] > 2 || idx + 1 != verEnd {
            ret := X509Decode;
          } else {
            version := der[idx];
          }
        }
        if ret == Success {
          idx := verEnd;
        }
      }
    }

    /** `wn_GetTime`. */
    method GetTime(der: bytes, from: nat, maxIdx: nat) returns (ret: Status, out: Slice, idx: nat)
      requires from <= maxIdx <= |der| <= MAX_BUFFER
      ensures TimeAt(der, from, maxIdx) == Done(ret, (out, idx))
    {
      hide HeaderAt;
      ret, out, idx := Success, Slice(0, 0), from;
      var tag: byte := 0;
      if idx >= maxIdx {
        ret := X509Decode;
      }
      if ret == Success {
        tag := der[idx];
        if tag != UTC_TIME && tag != GENERALIZED_TIME {
          ret := X509Decode;
        }
      }
      var len := 0;
      if ret == Success {
        ret, idx, len := GetHeader(der, tag, idx, maxIdx);
      }
      if ret == Success {
        out := Slice(from, (idx - from + len) % 0x1_0000);
        idx := idx + len;
      }
    }

    /** Validity and subject. */
    method ParseMiddle(der: bytes, from: nat, tbsEnd: nat) returns (ret: Status, idx: nat)
      requires from <= tbsEnd <= |der| <= MAX_BUFFER
      modifies this`notBefore, this`notAfter, this`cn
      ensures MiddleAt(der, from, tbsEnd) == Done(ret, Middle(notBefore, notAfter, cn, idx))
    {
      hide HeaderAt, TimeAt, CnAt;
      var len, valEnd;
      ret, idx, len := GetHeader(der, SEQ, from, tbsEnd);
      if ret == Success {
        valEnd := idx + len;
        ret, notBefore, idx := GetTime(der, idx, valEnd);
        if ret == Success {
          ret, notAfter, idx := GetTime(der, idx, valEnd);
        }
        if ret == Success && idx != valEnd {
          ret := X509Decode;
        }
      }
      if ret == Success {
        idx := valEnd;
        ret, idx, len := GetHeader(der, SEQ, idx, tbsEnd);
      }
      if ret == Success {
        cn := FindCN(der, idx, idx + len);
        idx := idx + len;
      }
    }

    /** `wn_ParseAlgIdOids`. */
    method ParseAlgIdOids(der: bytes, from: nat, algEnd: nat) returns (ret: Status, alg: KeyAlg, crv: Curve)
      requires from <= algEnd <= |der| <= MAX_BUFFER
      ensures AlgIdAt(der, from, algEnd) == Done(ret, (alg, crv))
    {
      hide HeaderAt, KeyAlgOf, CurveOf;
      alg, crv := KeyUnknown, CurveNone;
      var idx, oidLen;
      ret, idx, oidLen := GetHeader(der, OBJECT_ID, from, algEnd);
      if ret == Success {
        alg := KeyAlgOf(der[idx..idx + oidLen]);
        idx := idx + oidLen;
      }
      if ret == Success {
        if alg == KeyEcdsa {
          ret, idx, oidLen := GetHeader(der, OBJECT_ID, idx, algEnd);
          if ret == Success {
            crv := CurveOf(der[idx..idx + oidLen]);
            idx := idx + oidLen;
            if idx != algEnd {
              ret := X509Decode;
            }
          }
        } else if alg == KeyRsa {
          ret, idx, oidLen := GetHeader(der, NULL, idx, algEnd);
          if ret == Success && (oidLen != 0 || idx != algEnd) {
            ret := X509Decode;
          }
        } else if alg == KeyEd25519 {
          if idx != algEnd {
            ret := X509Decode;
          }
        }
      }
    }

    /** SubjectPublicKeyInfo. */
    method ParseSpki(der: bytes, from: nat, tbsEnd: nat) returns (ret: Status, idx: nat)
      requires from <= tbsEnd <= |der| <= MAX_BUFFER
      modifies this`spki, this`keyAlg, this`curve, this`pubKey
      ensures SpkiAt(der, from, tbsEnd) == Done(ret, Spki(spki, keyAlg, curve, pubKey, idx))
    {
      hide HeaderAt, AlgIdAt, BitStringAt;
      var len, algLen, spkiEnd, algEnd;
      ret, idx, len := GetHeader(der, SEQ, from, tbsEnd);
      if ret == Success {
        spki := Slice(from, len + (idx - from));
        spkiEnd := idx + len;
        ret, idx, algLen := GetHeader(der, SEQ, idx, spkiEnd);
      }
      if ret == Success {
        algEnd := idx + algLen;
        ret, keyAlg, curve := ParseAlgIdOids(der, idx, algEnd);
      }
      if ret == Success {
        ret, idx, pubKey := GetBitString(der, algEnd, spkiEnd);
      }
      if ret == Success && idx != spkiEnd {
        ret := X509Decode;
      }
    }

    /** The outer signature algorithm and the signature value. */
    method ParseSignature(der: bytes, from: nat, inner: Slice) returns (ret: Status)
      requires from <= |der| <= MAX_BUFFER && inner.In(der)
      modifies this`sigAlg, this`sig
      ensures SignatureAt(der, from, inner) == Done(ret, (sigAlg, sig))
    {
      hide HeaderAt, BitStringAt, SigAlgOf;
      var idx, len, oidIdx, oidLen, end;
      ret, idx, len := GetHeader(der, SEQ, from, |der|);
      if ret == Success {
        ret, oidIdx, oidLen := GetHeader(der, OBJECT_ID, idx, idx + len);
      }
      if ret == Success {
        sigAlg := SigAlgOf(der[oidIdx..oidIdx + oidLen]);
        if len + (idx - from) != inner.len || der[inner.off..inner.off + inner.len] != der[from..idx + len] {
          ret := X509Decode;
        }
      }
      if ret == Success && !ParamsOk(der, sigAlg, oidIdx + oidLen, idx + len) {
        ret := X509Decode;
      }
      if ret == Success {
        idx := idx + len;
        ret, end, sig := GetBitString(der, idx, |der|);
        if ret == Success && end != |der| {
          ret := X509Decode;
        }
      }
    }

    /** `wn_X509_Parse`: the fields are valid only on success, and cleared otherwise. */
    method Parse(der: bytes) returns (ret: Status)
      modifies this
      ensures ParseCert(der) == Done(ret, State())
      ensures ret != Success ==> State() == CLEARED
    {
      hide HeaderAt, CertBodyAt;
      if |der| < 2 || |der| > MAX_BUFFER {
        Zero();
        return InvalidArg;
      }
      Zero();
      var idx, totLen;
      ret, idx, totLen := GetHeader(der, SEQ, 0, |der|);
      if ret == Success && idx + totLen != |der| {
        ret := X509Decode;
      }
      if ret == Success {
        ret := ParseBody(der, idx);
      }
      if ret != Success {
        Zero();
      }
    }

    // The tbsCertificate and what follows it.
    method ParseBody(der: bytes, certBegin: nat) returns (ret: Status)
      requires certBegin <= |der| <= MAX_BUFFER && Exts() == NO_EXTS
      modifies this
      ensures CertBodyAt(der, certBegin) == Done(ret, State())
    {
      hide HeaderAt, TbsAt, SignatureAt;
      var idx, certLen, tbsEnd, inner := 0, 0, 0, Slice(0, 0);
      ret, idx, certLen := GetHeader(der, SEQ, certBegin, |der|);
      if ret == Success {
        tbs := Slice(certBegin, certLen + (idx - certBegin));
        tbsEnd := certBegin + tbs.len;
        ret, inner := ParseTbs(der, idx, tbsEnd);
      }
      if ret == Success {
        ret := ParseSignature(der, tbsEnd, inner);
      }
    }

    // The children of the tbsCertificate, bounded by its end.
    method ParseTbs(der: bytes, from: nat, tbsEnd: nat) returns (ret: Status, inner: Slice)
      requires from <= tbsEnd <= |der| <= MAX_BUFFER && Exts() == NO_EXTS
      modifies this
      ensures tbs == old(tbs)
      ensures TbsOf(TbsAt(der, from, tbsEnd), ret, inner)
    {
      hide FrontAt, MiddleAt, SpkiAt, ExtensionsAt;
      var front, idx;
      ret, front := ParseFront(der, from, tbsEnd);
      inner := front.inner;
      if ret == Success {
        ret, idx := ParseMiddle(der, front.next, tbsEnd);
      }
      if ret == Success {
        ret, idx := ParseSpki(der, idx, tbsEnd);
      }
      if ret == Success {
        ret := ParseExtensions(der, idx, tbsEnd, front.version);
      }
    }

    ghost predicate TbsOf(t: Try<Tbs>, ret: Status, inner: Slice)
      reads this
    {
      && (ret != Success ==> t == Fail(ret))
      && (ret == Success ==>
            && t.Ok? && t.value.inner == inner && t.value.ext == Exts()
            && t.value.mid.notBefore == notBefore && t.value.mid.notAfter == notAfter && t.value.mid.cn == cn
            && t.value.spki.spki == spki && t.value.spki.keyAlg == keyAlg && t.value.spki.curve == curve
            && t.value.spki.key == pubKey)
    }
  }
}
