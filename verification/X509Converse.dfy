/** Every accepted certificate is an encoding (`wn_x509.c`): the parser's language is exact. */
module X509Converse {
  import opened Bytes
  import opened Der
  import opened X509Spec
  import opened X509Grammar
  import X509RoundTrip

  /** A header that was read is a tag-length-value with the rest of its parent behind it. */
  lemma HeaderIs(der: bytes, idx: nat, end: nat, tag: byte, h: Header)
    requires idx <= end <= |der| && HeaderAt(der, idx, end, tag) == Some(h)
    ensures der[idx..h.End()] == Tlv(tag, der[h.start..h.End()])
    ensures der[idx..end] == Tlv(tag, der[h.start..h.End()]) + der[h.End()..end]
  {
    hide HeaderAt, Tlv;
    HeaderExactly(der, idx, end, tag, h);
  }

  lemma Cut(der: bytes, i: nat, j: nat, k: nat)
    requires i <= j <= k <= |der|
    ensures der[i..k] == der[i..j] + der[j..k]
  {}

  lemma OneOctet(der: bytes, at: nat, v: byte)
    requires at < |der| && der[at] == v
    ensures der[at..at + 1] == [v]
  {}

  lemma TrueIs(der: bytes, idx: nat, end: nat, b: Header)
    requires idx <= end <= |der| && HeaderAt(der, idx, end, BOOLEAN) == Some(b) && b.len == 1 && der[b.start] == 0xFF
    ensures der[idx..b.End()] == TRUE_TLV
  {}

  // ----- extension values ------------------------------------------------------------------

  lemma PathLenIs(der: bytes, idx: nat, end: nat, ca: bool) returns (p: Option<bytes>)
    requires idx <= end <= |der| && PathLenAt(der, idx, end, ca).Ok?
    ensures der[idx..end] == if p.Some? then Tlv(INTEGER, p.value) else []
  {
    hide HeaderAt, Tlv;
    p := None;
    if idx < end {
      var h := HeaderAt(der, idx, end, INTEGER).value;
      HeaderIs(der, idx, end, INTEGER, h);
      p := Some(der[h.start..end]);
    }
  }

  lemma BasicConstraintsIs(der: bytes, from: nat, to: nat) returns (v: ExtValue)
    requires from <= to <= |der| && BasicConstraintsAt(der, from, to).Ok?
    ensures v.BasicConstraints? && v.Encode() == der[from..to]
  {
    hide HeaderAt, Tlv, PathLenAt;
    var s := HeaderAt(der, from, to, SEQ).value;
    HeaderIs(der, from, to, SEQ, s);
    if s.start < to && der[s.start] == BOOLEAN {
      var b := HeaderAt(der, s.start, to, BOOLEAN).value;
      TrueIs(der, s.start, to, b);
      var p := PathLenIs(der, b.End(), to, true);
      Cut(der, s.start, b.End(), to);
      v := BasicConstraints(true, p);
    } else {
      var p := PathLenIs(der, s.start, to, false);
      v := BasicConstraints(false, p);
      var tail := if p.Some? then Tlv(INTEGER, p.value) else [];
      assert [] + tail == tail;
    }
  }

  lemma KeyUsageIs(der: bytes, from: nat, to: nat) returns (v: ExtValue)
    requires from <= to <= |der| && KeyUsageAt(der, from, to).Ok?
    ensures v.KeyUsage? && v.Encode() == der[from..to]
  {
    hide HeaderAt, Tlv, Pow2;
    var b := HeaderAt(der, from, to, BIT_STRING).value;
    HeaderIs(der, from, to, BIT_STRING, b);
    v := KeyUsage(der[b.start], der[b.start + 1..to]);
    Cut(der, b.start, b.start + 1, to);
    OneOctet(der, b.start, der[b.start]);
  }

  lemma {:induction false} PurposesIs(der: bytes, idx: nat, end: nat, p: Purposes) returns (os: seq<bytes>)
    requires idx <= end <= |der| && PurposesAt(der, idx, end, p).Ok?
    ensures EncOids(os) == der[idx..end]
    decreases end - idx
  {
    hide HeaderAt, Tlv;
    os := [];
    if idx < end {
      var o := HeaderAt(der, idx, end, OBJECT_ID).value;
      HeaderIs(der, idx, end, OBJECT_ID, o);
      var oid := der[o.start..o.End()];
      var rest := PurposesIs(der, o.End(), end, p.With(oid));
      os := [oid] + rest;
      assert os[1..] == rest;
    }
  }

  lemma ExtKeyUsageIs(der: bytes, from: nat, to: nat) returns (v: ExtValue)
    requires from <= to <= |der| && ExtKeyUsageAt(der, from, to).Ok?
    ensures v.ExtKeyUsage? && v.Encode() == der[from..to]
  {
    hide HeaderAt, Tlv, PurposesAt;
    var s := HeaderAt(der, from, to, SEQ).value;
    HeaderIs(der, from, to, SEQ, s);
    var os := PurposesIs(der, s.start, to, Purposes(false, false));
    v := ExtKeyUsage(os);
  }

  lemma {:induction false} NamesAre(der: bytes, idx: nat, end: nat, names: seq<Slice>) returns (ns: seq<GeneralName>)
    requires idx <= end <= |der| && NamesAt(der, idx, end, names).Ok?
    ensures EncNames(ns) == der[idx..end]
    decreases end - idx
  {
    hide HeaderAt, Tlv;
    ns := [];
    if idx < end {
      var h := HeaderAt(der, idx, end, der[idx]).value;
      HeaderIs(der, idx, end, der[idx], h);
      var keep := der[idx] == DNS_NAME && |names| < MAX_SAN;
      var rest := NamesAre(der, h.End(), end, if keep then names + [Slice(h.start, h.len)] else names);
      ns := [GeneralName(der[idx], der[h.start..h.End()])] + rest;
      assert ns[1..] == rest;
    }
  }

  lemma AltNameIs(der: bytes, from: nat, to: nat) returns (v: ExtValue)
    requires from <= to <= |der| && AltNameAt(der, from, to).Ok?
    ensures v.AltNames? && v.Encode() == der[from..to]
  {
    hide HeaderAt, Tlv, NamesAt;
    var s := HeaderAt(der, from, to, SEQ).value;
    HeaderIs(der, from, to, SEQ, s);
    var ns := NamesAre(der, s.start, to, []);
    v := AltNames(ns);
  }

  // ----- the extension list ----------------------------------------------------------------

  lemma ValueIs(der: bytes, x: RawExt, info: ExtInfo) returns (v: ExtValue)
    requires x.oid.End() <= |der| && x.value.End() <= |der| && Apply(der, x, info).Ok?
    ensures v.Oid() == der[x.oid.start..x.oid.End()] && v.Encode() == der[x.value.start..x.value.End()] && Plain(v)
  {
    hide BasicConstraintsAt, KeyUsageAt, ExtKeyUsageAt, AltNameAt, OID_BC, OID_KU, OID_EKU, OID_SAN, Tlv;
    var oid := der[x.oid.start..x.oid.End()];
    var from, to := x.value.start, x.value.End();
    X509RoundTrip.OidsDiffer();
    if oid == OID_BC {
      v := BasicConstraintsIs(der, from, to);
    } else if oid == OID_KU {
      v := KeyUsageIs(der, from, to);
    } else if oid == OID_EKU {
      v := ExtKeyUsageIs(der, from, to);
    } else if oid == OID_SAN {
      v := AltNameIs(der, from, to);
    } else {
      v := Other(oid, der[from..to]);
    }
  }

  lemma FramingIs(der: bytes, start: nat, end: nat, v: ExtValue) returns (e: Extension)
    requires start <= end <= |der| && ExtensionIn(der, start, end).Ok?
    requires var x := ExtensionIn(der, start, end).value;
      v.Oid() == der[x.oid.start..x.oid.End()] && v.Encode() == der[x.value.start..x.value.End()]
    ensures e.value == v && e.Content() == der[start..end]
  {
    hide HeaderAt, Tlv, ExtValue.Oid, ExtValue.Encode;
    var x := ExtensionIn(der, start, end).value;
    e := Extension(x.critical, v);
    HeaderIs(der, start, end, OBJECT_ID, x.oid);
    var at := CriticalAt(der, x.oid.End(), end).value.1;
    HeaderIs(der, at, end, OCTET_STRING, x.value);
    if x.critical {
      TrueIs(der, x.oid.End(), end, HeaderAt(der, x.oid.End(), end, BOOLEAN).value);
      Cut(der, x.oid.End(), at, end);
    } else {
      assert [] + der[at..end] == der[at..end];
    }
    Cut(der, start, x.oid.End(), end);
  }

  lemma {:induction false} ListIs(der: bytes, idx: nat, end: nat, info: ExtInfo) returns (es: seq<Extension>)
    requires idx <= end <= |der| && ExtensionList(der, idx, end, info).Ok?
    ensures EncExts(es) == der[idx..end] && forall i :: 0 <= i < |es| ==> Plain(es[i].value)
    decreases end - idx
  {
    hide HeaderAt, Tlv, ExtensionIn, Apply, Extension.Content;
    es := [];
    if idx < end {
      var s := HeaderAt(der, idx, end, SEQ).value;
      HeaderIs(der, idx, end, SEQ, s);
      var x := ExtensionIn(der, s.start, s.End()).value;
      var v := ValueIs(der, x, info);
      var e := FramingIs(der, s.start, s.End(), v);
      var rest := ListIs(der, s.End(), end, Apply(der, x, info).value);
      es := [e] + rest;
      assert es[1..] == rest;
    }
  }

  lemma {:induction false} UidsAre(der: bytes, idx: nat, end: nat, version: nat) returns (uids: seq<Field>)
    requires idx <= end <= |der| && UidsAt(der, idx, end, version).Ok?
    ensures EncFields(uids) == der[idx..UidsAt(der, idx, end, version).value]
    ensures (uids != [] ==> version >= 1) && forall i :: 0 <= i < |uids| ==> uids[i].tag in {UID1, UID2}
    decreases end - idx
  {
    hide HeaderAt, Tlv;
    uids := [];
    if idx < end && der[idx] != CTX3 {
      var h := HeaderAt(der, idx, end, der[idx]).value;
      HeaderIs(der, idx, end, der[idx], h);
      var rest := UidsAre(der, h.End(), end, version);
      uids := [Field(der[idx], der[h.start..h.End()])] + rest;
      assert uids[1..] == rest;
      Cut(der, idx, h.End(), UidsAt(der, idx, end, version).value);
    }
  }

  /** The parts of a certificate that are collected on the way. */
  lemma ExtensionsAre(der: bytes, idx: nat, end: nat, version: nat)
    returns (uids: seq<Field>, exts: Option<seq<Extension>>)
    requires idx <= end <= |der| && ExtensionsAt(der, idx, end, version).Ok?
    ensures der[idx..end] == EncFields(uids) + if exts.None? then [] else Tlv(CTX3, Tlv(SEQ, EncExts(exts.value)))
    ensures (uids != [] ==> version >= 1) && forall i :: 0 <= i < |uids| ==> uids[i].tag in {UID1, UID2}
    ensures exts.Some? ==> version == 2 && exts.value != []
    ensures exts.Some? ==> forall i :: 0 <= i < |exts.value| ==> Plain(exts.value[i].value)
  {
    hide HeaderAt, Tlv, UidsAt, ExtensionList;
    var p := UidsAt(der, idx, end, version).value;
    uids := UidsAre(der, idx, end, version);
    exts := None;
    if p < end {
      var w := HeaderAt(der, p, end, CTX3).value;
      HeaderIs(der, p, end, CTX3, w);
      var s := HeaderAt(der, w.start, end, SEQ).value;
      HeaderIs(der, w.start, end, SEQ, s);
      var es := ListIs(der, s.start, end, NO_EXTS);
      assert EncExts(es) != [];
      exts := Some(es);
    }
    Cut(der, idx, p, end);
  }

  // ----- the fields of the tbsCertificate --------------------------------------------------

  lemma VersionIs(der: bytes, idx: nat, end: nat)
    requires idx <= end <= |der| && VersionAt(der, idx, end).Ok?
    ensures var v := VersionAt(der, idx, end).value;
      v.0 <= 2 && der[idx..v.1] == if v.0 == 0 then [] else Tlv(CTX0, Tlv(INTEGER, [v.0 % 0x100]))
  {
    hide HeaderAt, Tlv;
    if idx < end && der[idx] == CTX0 {
      var w := HeaderAt(der, idx, end, CTX0).value;
      HeaderIs(der, idx, end, CTX0, w);
      var v := HeaderAt(der, w.start, w.End(), INTEGER).value;
      HeaderIs(der, w.start, w.End(), INTEGER, v);
      OneOctet(der, v.start, der[v.start]);
    }
  }

  // The octets of version, serial, algorithm and issuer, nested as in the encoding.
  lemma FrontIs(der: bytes, idx: nat, end: nat) returns (serial: bytes, alg: bytes, issuer: bytes)
    requires idx <= end <= |der| && FrontAt(der, idx, end).Ok?
    ensures var f := FrontAt(der, idx, end).value;
      && f.version <= 2 && serial != [] && f.inner.In(der) && f.inner.Of(der) == Tlv(SEQ, alg)
      && der[idx..f.next] == (if f.version == 0 then [] else Tlv(CTX0, Tlv(INTEGER, [f.version % 0x100])))
                             + (Tlv(INTEGER, serial) + (Tlv(SEQ, alg) + Tlv(SEQ, issuer)))
  {
    hide HeaderAt, Tlv, VersionAt;
    var v := VersionAt(der, idx, end).value;
    VersionIs(der, idx, end);
    var s := HeaderAt(der, v.1, end, INTEGER).value;
    var i := HeaderAt(der, s.End(), end, SEQ).value;
    var u := HeaderAt(der, i.End(), end, SEQ).value;
    HeaderIs(der, v.1, end, INTEGER, s);
    HeaderIs(der, s.End(), end, SEQ, i);
    HeaderIs(der, i.End(), end, SEQ, u);
    serial, alg, issuer := der[s.start..s.End()], der[i.start..i.End()], der[u.start..u.End()];
    Cut(der, s.End(), i.End(), u.End());
    Cut(der, v.1, s.End(), u.End());
    Cut(der, idx, v.1, u.End());
  }

  lemma TimeIs(der: bytes, idx: nat, end: nat) returns (t: Field)
    requires idx <= end <= |der| && TimeAt(der, idx, end).Ok?
    ensures t.tag in {UTC_TIME, GENERALIZED_TIME} && der[idx..TimeAt(der, idx, end).value.1] == t.Encode()
  {
    hide HeaderAt, Tlv;
    var h := HeaderAt(der, idx, end, der[idx]).value;
    HeaderIs(der, idx, end, der[idx], h);
    t := Field(der[idx], der[h.start..h.End()]);
  }

  lemma MiddleIs(der: bytes, idx: nat, end: nat) returns (nb: Field, na: Field, subject: bytes)
    requires idx <= end <= |der| && MiddleAt(der, idx, end).Ok?
    ensures nb.tag in {UTC_TIME, GENERALIZED_TIME} && na.tag in {UTC_TIME, GENERALIZED_TIME}
    ensures der[idx..MiddleAt(der, idx, end).value.next] == Tlv(SEQ, nb.Encode() + na.Encode()) + Tlv(SEQ, subject)
  {
    hide HeaderAt, Tlv, TimeAt, CnAt, Field.Encode;
    var val := HeaderAt(der, idx, end, SEQ).value;
    HeaderIs(der, idx, end, SEQ, val);
    var t1 := TimeAt(der, val.start, val.End()).value;
    nb := TimeIs(der, val.start, val.End());
    na := TimeIs(der, t1.1, val.End());
    Cut(der, val.start, t1.1, val.End());
    var s := HeaderAt(der, val.End(), end, SEQ).value;
    HeaderIs(der, val.End(), end, SEQ, s);
    subject := der[s.start..s.End()];
    Cut(der, idx, val.End(), s.End());
  }

  lemma BitStringIs(der: bytes, idx: nat, end: nat, h: Header)
    requires idx <= end <= |der| && BitStringAt(der, idx, end) == Some(h)
    ensures der[idx..h.End()] == Tlv(BIT_STRING, [0] + der[h.start..h.End()])
  {
    hide HeaderAt, Tlv;
    var b := HeaderAt(der, idx, end, BIT_STRING).value;
    HeaderIs(der, idx, end, BIT_STRING, b);
    OneOctet(der, b.start, 0);
    Cut(der, b.start, h.start, h.End());
  }

  lemma AlgIdIs(der: bytes, idx: nat, end: nat) returns (a: AlgId)
    requires idx <= end <= |der| && AlgIdAt(der, idx, end).Ok?
    ensures a.Content() == der[idx..end] && KeyParamsOk(a)
  {
    hide HeaderAt, Tlv, KeyAlgOf, CurveOf;
    var o := HeaderAt(der, idx, end, OBJECT_ID).value;
    HeaderIs(der, idx, end, OBJECT_ID, o);
    a := AlgId(der[o.start..o.End()], der[o.End()..end]);
    if KeyAlgOf(a.oid) == KeyEcdsa {
      var p := HeaderAt(der, o.End(), end, OBJECT_ID).value;
      HeaderIs(der, o.End(), end, OBJECT_ID, p);
    } else if KeyAlgOf(a.oid) == KeyRsa {
      var p := HeaderAt(der, o.End(), end, NULL).value;
      HeaderIs(der, o.End(), end, NULL, p);
      X509RoundTrip.NullIsTlv();
      assert der[p.start..p.End()] == [];
    }
  }

  lemma SpkiIs(der: bytes, idx: nat, end: nat) returns (a: AlgId, key: bytes)
    requires idx <= end <= |der| && SpkiAt(der, idx, end).Ok?
    ensures KeyParamsOk(a)
    ensures der[idx..SpkiAt(der, idx, end).value.next] == Tlv(SEQ, a.Encode() + Tlv(BIT_STRING, [0] + key))
  {
    hide HeaderAt, Tlv, AlgIdAt, BitStringAt, KeyParamsOk, AlgId.Content;
    var s := HeaderAt(der, idx, end, SEQ).value;
    HeaderIs(der, idx, end, SEQ, s);
    var g := HeaderAt(der, s.start, s.End(), SEQ).value;
    HeaderIs(der, s.start, s.End(), SEQ, g);
    a := AlgIdIs(der, g.start, g.End());
    var h := BitStringAt(der, g.End(), s.End()).value;
    BitStringIs(der, g.End(), s.End(), h);
    key := der[h.start..h.End()];
    Cut(der, s.start, g.End(), s.End());
  }

  lemma SignatureIs(der: bytes, idx: nat, inner: Slice) returns (a: AlgId, sig: bytes)
    requires idx <= |der| && inner.In(der) && SignatureAt(der, idx, inner).Ok?
    ensures SigParamsOk(a) && inner.Of(der) == a.Encode()
    ensures der[idx..] == a.Encode() + Tlv(BIT_STRING, [0] + sig)
  {
    hide HeaderAt, Tlv, BitStringAt, SigAlgOf;
    var outer := HeaderAt(der, idx, |der|, SEQ).value;
    HeaderIs(der, idx, |der|, SEQ, outer);
    var o := HeaderAt(der, outer.start, outer.End(), OBJECT_ID).value;
    HeaderIs(der, outer.start, outer.End(), OBJECT_ID, o);
    a := AlgId(der[o.start..o.End()], der[o.End()..outer.End()]);
    if IsRsa(SigAlgOf(a.oid)) {
      assert a.params == [der[o.End()], der[o.End() + 1]];
    }
    var h := BitStringAt(der, outer.End(), |der|).value;
    BitStringIs(der, outer.End(), |der|, h);
    sig := der[h.start..h.End()];
    Cut(der, idx, outer.End(), |der|);
    assert der[idx..] == der[idx..|der|];
  }

  // ----- the certificate -------------------------------------------------------------------

  lemma TbsIs(der: bytes, idx: nat, end: nat, a: AlgId, sig: bytes) returns (c: Certificate)
    requires idx <= end <= |der| && TbsAt(der, idx, end).Ok? && SigParamsOk(a)
    requires TbsAt(der, idx, end).value.inner.Of(der) == a.Encode()
    ensures c.Framed() && c.sigAlg == a && c.sig == sig && c.TbsContent() == der[idx..end]
  {
    hide HeaderAt, Tlv, FrontAt, MiddleAt, SpkiAt, ExtensionsAt, KeyParamsOk, SigParamsOk, AlgId.Encode,
        Field.Encode, EncFields, EncExts;
    var f := FrontAt(der, idx, end).value;
    var serial, alg, issuer := FrontIs(der, idx, end);
    var m := MiddleAt(der, f.next, end).value;
    var nb, na, subject := MiddleIs(der, f.next, end);
    var k := SpkiAt(der, m.next, end).value;
    var keyAlg, key := SpkiIs(der, m.next, end);
    var uids, exts := ExtensionsAre(der, k.next, end, f.version);
    c := Certificate(f.version, serial, a, issuer, nb, na, subject, keyAlg, key, uids, exts, sig);
    Cut(der, m.next, k.next, end);
    Cut(der, f.next, m.next, end);
    Cut(der, idx, f.next, end);
  }

  /** Every accepted input is the encoding of a certificate of the profile. */
  lemma AcceptedIsEncoding(der: bytes) returns (c: Certificate)
    requires ParseCert(der).Ok?
    ensures c.Framed() && c.Encode() == der
  {
    hide HeaderAt, Tlv, TbsAt, SignatureAt, Certificate.Framed, Certificate.TbsContent, SigParamsOk, AlgId.Encode;
    var outer := HeaderAt(der, 0, |der|, SEQ).value;
    HeaderIs(der, 0, |der|, SEQ, outer);
    var h := HeaderAt(der, outer.start, |der|, SEQ).value;
    HeaderIs(der, outer.start, |der|, SEQ, h);
    var t := TbsAt(der, h.start, h.End()).value;
    var a, sig := SignatureIs(der, h.End(), t.inner);
    c := TbsIs(der, h.start, h.End(), a, sig);
    assert der[0..|der|] == der && der[h.End()..|der|] == der[h.End()..];
  }

  /**
   * Below 2^24 octets the parser accepts exactly the encodings of the certificates of the profile
   * whose extension list folds to a summary.
   */
  lemma ParserAcceptsExactly(der: bytes)
    requires |der| < LEN_LIMIT
    ensures ParseCert(der).Ok?
      <==> exists c: Certificate :: c.Framed() && c.Encode() == der && Fold(X509RoundTrip.Extensions(c), EMPTY).Ok?
  {
    hide ParseCert, Certificate.Encode, Fold, Certificate.Framed;
    if ParseCert(der).Ok? {
      var c := AcceptedIsEncoding(der);
      X509RoundTrip.ParsePrint(c);
    }
    if c: Certificate :| c.Framed() && c.Encode() == der && Fold(X509RoundTrip.Extensions(c), EMPTY).Ok? {
      X509RoundTrip.ParsePrint(c);
    }
  }
}
