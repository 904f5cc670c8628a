/** Parsing the encoding of a certificate gives back the certificate (`wn_x509.c`). */
module X509RoundTrip {
  import opened Bytes
  import opened Der
  import opened X509Spec
  import opened X509Grammar

  // ----- reading fields in sequence --------------------------------------------------------

  /** `x` stands at `idx`, and `rest` fills what is left up to `end`. */
  ghost predicate Here(der: bytes, idx: nat, end: nat, x: bytes, rest: bytes) {
    idx <= end <= |der| < LEN_LIMIT && der[idx..end] == x + rest
  }

  lemma Field1(der: bytes, idx: nat, end: nat, tag: byte, content: bytes, rest: bytes) returns (h: Header)
    requires Here(der, idx, end, Tlv(tag, content), rest)
    ensures HeaderAt(der, idx, end, tag) == Some(h)
    ensures h.len == |content| && h.End() == idx + |Tlv(tag, content)| && idx < h.End() <= end
    ensures der[idx] == tag && der[h.start..h.End()] == content && der[h.End()..end] == rest
        && der[idx..h.End()] == Tlv(tag, content)
    ensures rest == [] <==> h.End() == end
  {
    hide Tlv, HeaderAt;
    ReadTlv(der, idx, end, tag, content, rest);
    h := Header(idx + 1 + |EncLen(|content|)|, |content|);
    assert der[idx..end][0] == tag;
    assert |der[h.End()..end]| == end - h.End();
  }

  lemma Exact1(der: bytes, idx: nat, end: nat, tag: byte, content: bytes) returns (h: Header)
    requires Here(der, idx, end, Tlv(tag, content), [])
    ensures ExactAt(der, idx, end, tag) == Some(h)
    ensures h.len == |content| && h.End() == end && der[idx] == tag && der[h.start..end] == content
  {
    hide Tlv, HeaderAt;
    h := Field1(der, idx, end, tag, content, []);
  }

  // ----- extension values ------------------------------------------------------------------

  lemma TrueIsTlv()
    ensures TRUE_TLV == Tlv(BOOLEAN, [0xFF])
  {}

  lemma PathLenRead(der: bytes, idx: nat, end: nat, ca: bool, pathLen: Option<bytes>)
    requires Here(der, idx, end, if pathLen.Some? then Tlv(INTEGER, pathLen.value) else [], [])
    ensures PathLenAt(der, idx, end, ca) == Ok(ca)
    ensures idx < end ==> der[idx] == INTEGER
  {
    hide Tlv, HeaderAt;
    if pathLen.Some? {
      var _ := Exact1(der, idx, end, INTEGER, pathLen.value);
    } else {
      assert |der[idx..end]| == 0;
    }
  }

  lemma BasicConstraintsRead(der: bytes, from: nat, to: nat, ca: bool, pathLen: Option<bytes>)
    requires Here(der, from, to, BasicConstraints(ca, pathLen).Encode(), [])
    ensures BasicConstraintsAt(der, from, to) == Ok(ca)
  {
    hide Tlv, HeaderAt, PathLenAt;
    var tail := if pathLen.Some? then Tlv(INTEGER, pathLen.value) else [];
    var s := Exact1(der, from, to, SEQ, (if ca then TRUE_TLV else []) + tail);
    if ca {
      TrueIsTlv();
      var b := Field1(der, s.start, to, BOOLEAN, [0xFF], tail);
      assert der[b.start..b.End()][0] == 0xFF;
      PathLenRead(der, b.End(), to, true, pathLen);
    } else {
      assert [] + tail == tail;
      PathLenRead(der, s.start, to, false, pathLen);
    }
  }

  lemma KeyUsageRead(der: bytes, from: nat, to: nat, unused: byte, bits: bytes)
    requires Here(der, from, to, KeyUsage(unused, bits).Encode(), [])
    ensures KeyUsageAt(der, from, to) == UsageOf(unused, bits)
  {
    hide Tlv, ExactAt, Pow2;
    var b := Exact1(der, from, to, BIT_STRING, [unused] + bits);
    var v := der[b.start..to];
    assert v[0] == unused && v[1..] == bits;
    assert der[b.start] == v[0];
    if bits != [] {
      assert der[to - 1] == v[|v| - 1] == bits[|bits| - 1];
      assert der[b.start + 1] == v[1] == bits[0];
      if |bits| >= 2 {
        assert der[b.start + 2] == v[2] == bits[1];
      }
    }
  }

  lemma {:induction false} PurposesRead(der: bytes, idx: nat, end: nat, os: seq<bytes>, p: Purposes)
    requires Here(der, idx, end, EncOids(os), [])
    ensures PurposesAt(der, idx, end, p)
         == Ok(Purposes(p.serverAuth || OID_SERVER_AUTH in os, p.anyUse || OID_ANY_USE in os))
    decreases |os|
  {
    hide Tlv, HeaderAt;
    if os == [] {
      assert |der[idx..end]| == 0;
    } else {
      assert EncOids(os) + [] == Tlv(OBJECT_ID, os[0]) + EncOids(os[1..]);
      var h := Field1(der, idx, end, OBJECT_ID, os[0], EncOids(os[1..]));
      assert EncOids(os[1..]) + [] == EncOids(os[1..]);
      PurposesRead(der, h.End(), end, os[1..], p.With(os[0]));
      InConsed(os, OID_SERVER_AUTH);
      InConsed(os, OID_ANY_USE);
    }
  }

  lemma InConsed(os: seq<bytes>, o: bytes)
    requires os != []
    ensures o in os <==> os[0] == o || o in os[1..]
  {}

  lemma ExtKeyUsageRead(der: bytes, from: nat, to: nat, os: seq<bytes>)
    requires Here(der, from, to, ExtKeyUsage(os).Encode(), [])
    ensures ExtKeyUsageAt(der, from, to)
         == if os == [] then Fail(X509Decode) else Ok(Purposes(OID_SERVER_AUTH in os, OID_ANY_USE in os))
  {
    hide Tlv, HeaderAt, PurposesAt;
    var s := Exact1(der, from, to, SEQ, EncOids(os));
    if os != [] {
      FirstOidNotEmpty(os);
      assert EncOids(os) + [] == EncOids(os);
      PurposesRead(der, s.start, to, os, Purposes(false, false));
    }
  }

  lemma FirstOidNotEmpty(os: seq<bytes>)
    requires os != []
    ensures EncOids(os) != []
  {}

  function Texts(der: bytes, names: seq<Slice>): seq<bytes>
    requires AllIn(der, names)
  {
    if names == [] then [] else [names[0].Of(der)] + Texts(der, names[1..])
  }

  predicate AllIn(der: bytes, names: seq<Slice>) {
    forall i :: 0 <= i < |names| ==> names[i].In(der)
  }

  lemma {:induction false} TextsAppend(der: bytes, names: seq<Slice>, s: Slice)
    requires AllIn(der, names) && s.In(der)
    ensures AllIn(der, names + [s]) && Texts(der, names + [s]) == Texts(der, names) + [s.Of(der)]
    ensures |Texts(der, names)| == |names|
    decreases |names|
  {
    if names != [] {
      TextsAppend(der, names[1..], s);
      assert (names + [s])[1..] == names[1..] + [s];
    }
  }

  // What the name loop makes of the names still to come.
  ghost predicate NamesResult(der: bytes, r: Try<seq<Slice>>, names: seq<Slice>, ns: seq<GeneralName>)
    requires AllIn(der, names)
  {
    if AllHostLike(ns)
    then r.Ok? && AllIn(der, r.value) && Texts(der, r.value) == FirstNames(Texts(der, names) + DnsNames(ns))
    else r == Fail(X509Decode)
  }

  lemma HostLikeStep(ns: seq<GeneralName>)
    requires ns != []
    ensures AllHostLike(ns) <==> (ns[0].tag == DNS_NAME ==> HostLike(ns[0].content)) && AllHostLike(ns[1..])
  {}

  lemma {:induction false} NamesRead(der: bytes, idx: nat, end: nat, ns: seq<GeneralName>, names: seq<Slice>)
    requires Here(der, idx, end, EncNames(ns), []) && AllIn(der, names) && |names| <= MAX_SAN
    ensures NamesResult(der, NamesAt(der, idx, end, names), names, ns)
    decreases |ns|
  {
    hide Tlv, HeaderAt;
    if ns == [] {
      assert |der[idx..end]| == 0;
      TextsSize(der, names);
      assert Texts(der, names) + [] == Texts(der, names);
    } else {
      var n, rest := ns[0], EncNames(ns[1..]);
      assert EncNames(ns) + [] == Tlv(n.tag, n.content) + rest;
      var h := Field1(der, idx, end, n.tag, n.content, rest);
      assert rest + [] == rest;
      HostLikeStep(ns);
      if n.tag != DNS_NAME {
        NamesRead(der, h.End(), end, ns[1..], names);
        assert DnsNames(ns) == DnsNames(ns[1..]);
      } else if HostLike(n.content) {
        OneName(der, h, end, ns, names);
      }
    }
  }

  lemma TextsSize(der: bytes, names: seq<Slice>)
    requires AllIn(der, names)
    ensures |Texts(der, names)| == |names|
  {}

  lemma {:induction false} OneName(der: bytes, h: Header, end: nat, ns: seq<GeneralName>, names: seq<Slice>)
    requires ns != [] && ns[0].tag == DNS_NAME && h.End() <= end
    requires Here(der, h.End(), end, EncNames(ns[1..]), []) && AllIn(der, names) && |names| <= MAX_SAN
    requires der[h.start..h.End()] == ns[0].content && AllHostLike(ns) == AllHostLike(ns[1..])
    ensures var names1 := if |names| < MAX_SAN then names + [Slice(h.start, h.len)] else names;
      NamesResult(der, NamesAt(der, h.End(), end, names1), names, ns)
    decreases |ns|, 0
  {
    hide NamesAt, HeaderAt;
    var s := Slice(h.start, h.len);
    var names1 := if |names| < MAX_SAN then names + [s] else names;
    TextsAppend(der, names, s);
    NamesRead(der, h.End(), end, ns[1..], names1);
    var had, has, more := Texts(der, names), Texts(der, names1), DnsNames(ns[1..]);
    assert DnsNames(ns) == [ns[0].content] + more;
    if |names| < MAX_SAN {
      assert has + more == had + DnsNames(ns);
    } else {
      assert (had + more)[..MAX_SAN] == had == (had + DnsNames(ns))[..MAX_SAN];
      if more == [] {
        assert had + more == had;
      }
    }
  }

  lemma AltNamesRead(der: bytes, from: nat, to: nat, ns: seq<GeneralName>)
    requires Here(der, from, to, AltNames(ns).Encode(), [])
    ensures var r := AltNameAt(der, from, to);
      if ns == [] || !AllHostLike(ns) then r == Fail(X509Decode)
      else r.Ok? && AllIn(der, r.value) && Texts(der, r.value) == FirstNames(DnsNames(ns))
  {
    hide Tlv, HeaderAt, NamesAt;
    var s := Exact1(der, from, to, SEQ, EncNames(ns));
    if ns != [] {
      FirstNameNotEmpty(ns);
      assert EncNames(ns) + [] == EncNames(ns);
      NamesRead(der, s.start, to, ns, []);
      assert [] + DnsNames(ns) == DnsNames(ns);
    }
  }

  lemma FirstNameNotEmpty(ns: seq<GeneralName>)
    requires ns != []
    ensures EncNames(ns) != []
  {}

  // ----- the extension list ----------------------------------------------------------------

  function Abstract(der: bytes, i: ExtInfo): Summary
    requires AllIn(der, i.san)
  {
    Summary(i.bc, i.ca, i.ku, i.keyUsage, i.eku, i.serverAuth, i.anyUse, i.sanMark, Texts(der, i.san))
  }

  /** The concrete result `r` is the abstract one `t`: the same error, or the same information. */
  ghost predicate Matches(der: bytes, r: Try<ExtInfo>, t: Try<Summary>) {
    match t
    case Fail(status) => r == Fail(status)
    case Ok(sum) => r.Ok? && AllIn(der, r.value.san) && Abstract(der, r.value) == sum
  }

  lemma ExtensionFramed(der: bytes, start: nat, end: nat, e: Extension) returns (x: RawExt)
    requires Here(der, start, end, e.Content(), [])
    ensures ExtensionIn(der, start, end) == Ok(x)
    ensures x.critical == e.critical && x.oid.End() <= end && x.value.End() == end
    ensures der[x.oid.start..x.oid.End()] == e.value.Oid() && der[x.value.start..x.value.End()] == e.value.Encode()
  {
    hide Tlv, HeaderAt, ExtValue.Oid, ExtValue.Encode;
    var val := Tlv(OCTET_STRING, e.value.Encode());
    var tail := (if e.critical then TRUE_TLV else []) + val;
    assert e.Content() + [] == Tlv(OBJECT_ID, e.value.Oid()) + tail;
    var o := Field1(der, start, end, OBJECT_ID, e.value.Oid(), tail);
    var at := o.End();
    if e.critical {
      TrueIsTlv();
      var b := Field1(der, at, end, BOOLEAN, [0xFF], val);
      assert der[b.start..b.End()][0] == 0xFF;
      at := b.End();
    } else {
      assert tail == val;
    }
    assert val + [] == val;
    var v := Exact1(der, at, end, OCTET_STRING, e.value.Encode());
    x := RawExt(o, e.critical, v);
  }

  lemma OidsDiffer()
    ensures OID_BC != OID_KU && OID_BC != OID_EKU && OID_BC != OID_SAN
    ensures OID_KU != OID_EKU && OID_KU != OID_SAN && OID_EKU != OID_SAN
  {}

  /** Acting on one framed extension does what the extension means. */
  lemma ApplyIsLearn(der: bytes, x: RawExt, e: Extension, info: ExtInfo)
    requires x.oid.End() <= |der| && x.value.End() <= |der| < LEN_LIMIT && AllIn(der, info.san)
    requires x.critical == e.critical && der[x.oid.start..x.oid.End()] == e.value.Oid()
    requires der[x.value.start..x.value.End()] == e.value.Encode() && Plain(e.value)
    ensures Matches(der, Apply(der, x, info), Learn(e, Abstract(der, info)))
  {
    hide Tlv, BasicConstraintsAt, KeyUsageAt, ExtKeyUsageAt, AltNameAt, UsageOf, AllHostLike, FirstNames, DnsNames,
         OID_BC, OID_KU, OID_EKU, OID_SAN, ExtValue.Encode;
    OidsDiffer();
    var from, to := x.value.start, x.value.End();
    assert e.value.Encode() + [] == e.value.Encode();
    match e.value
    case BasicConstraints(ca, pathLen) => BasicConstraintsRead(der, from, to, ca, pathLen);
    case KeyUsage(unused, bits) => KeyUsageRead(der, from, to, unused, bits);
    case ExtKeyUsage(os) => ExtKeyUsageRead(der, from, to, os);
    case AltNames(ns) => AltNamesRead(der, from, to, ns);
    case Other(_, _) =>
  }

  /** The parser's pass over the encoded list is the fold over the abstract one. */
  lemma {:induction false} ListIsFold(der: bytes, idx: nat, end: nat, es: seq<Extension>, info: ExtInfo)
    requires Here(der, idx, end, EncExts(es), []) && AllIn(der, info.san)
    requires forall i :: 0 <= i < |es| ==> Plain(es[i].value)
    ensures Matches(der, ExtensionList(der, idx, end, info), Fold(es, Abstract(der, info)))
    decreases |es|
  {
    hide Tlv, HeaderAt, ExtensionIn, Apply, Learn, Extension.Content;
    if es == [] {
      assert |der[idx..end]| == 0;
    } else {
      var e, rest := es[0], EncExts(es[1..]);
      assert EncExts(es) + [] == Tlv(SEQ, e.Content()) + rest;
      var s := Field1(der, idx, end, SEQ, e.Content(), rest);
      assert e.Content() + [] == e.Content() && rest + [] == rest;
      var x := ExtensionFramed(der, s.start, s.End(), e);
      ApplyIsLearn(der, x, e, info);
      var r := Apply(der, x, info);
      if r.Ok? {
        ListIsFold(der, s.End(), end, es[1..], r.value);
      }
    }
  }

  // ----- the fields of the tbsCertificate --------------------------------------------------

  lemma {:induction false} UidsRead(der: bytes, idx: nat, end: nat, uids: seq<Field>, version: nat, rest: bytes)
    returns (at: nat)
    requires Here(der, idx, end, EncFields(uids), rest) && (uids != [] ==> version >= 1)
    requires forall i :: 0 <= i < |uids| ==> uids[i].tag in {UID1, UID2}
    requires rest != [] ==> rest[0] == CTX3
    ensures at <= end && UidsAt(der, idx, end, version) == Ok(at) && der[at..end] == rest
    decreases |uids|
  {
    hide Tlv, HeaderAt;
    if uids == [] {
      at := idx;
      assert [] + rest == rest;
      if rest != [] {
        assert der[idx..end][0] == CTX3;
      } else {
        assert |der[idx..end]| == 0;
      }
    } else {
      var f := uids[0];
      var tail := EncFields(uids[1..]) + rest;
      assert EncFields(uids) + rest == Tlv(f.tag, f.content) + tail;
      var h := Field1(der, idx, end, f.tag, f.content, tail);
      at := UidsRead(der, h.End(), end, uids[1..], version, rest);
    }
  }

  /** The extension block behind the SPKI: its result is the fold, from the empty summary. */
  lemma ExtensionsRead(der: bytes, idx: nat, end: nat, c: Certificate)
    requires Here(der, idx, end, c.ExtBytes(), []) && c.Framed()
    ensures Matches(der, ExtensionsAt(der, idx, end, c.version), Fold(if c.exts.Some? then c.exts.value else [], EMPTY))
  {
    hide Tlv, HeaderAt, UidsAt, ExtensionList, EncFields;
    var block := if c.exts.None? then [] else Tlv(CTX3, Tlv(SEQ, EncExts(c.exts.value)));
    assert c.ExtBytes() + [] == EncFields(c.uids) + block;
    var at := UidsRead(der, idx, end, c.uids, c.version, block);
    if c.exts.Some? {
      var inner := Tlv(SEQ, EncExts(c.exts.value));
      assert block + [] == block && inner + [] == inner;
      var w := Exact1(der, at, end, CTX3, inner);
      var s := Exact1(der, w.start, end, SEQ, EncExts(c.exts.value));
      FirstExtNotEmpty(c.exts.value);
      assert EncExts(c.exts.value) + [] == EncExts(c.exts.value);
      assert Abstract(der, NO_EXTS) == EMPTY;
      ListIsFold(der, s.start, end, c.exts.value, NO_EXTS);
      assert |der[at..end]| > 0;
    } else {
      assert |der[at..end]| == 0;
      assert Abstract(der, NO_EXTS) == EMPTY;
    }
  }

  lemma FirstExtNotEmpty(es: seq<Extension>)
    requires es != []
    ensures EncExts(es) != []
  {}

  lemma VersionRead(der: bytes, idx: nat, end: nat, c: Certificate, rest: bytes) returns (at: nat)
    requires Here(der, idx, end, c.VersionBytes(), rest) && c.version <= 2 && rest != [] && rest[0] == INTEGER
    ensures VersionAt(der, idx, end) == Ok((c.version, at)) && at <= end && der[at..end] == rest
  {
    hide Tlv, HeaderAt;
    if c.version == 0 {
      at := idx;
      assert [] + rest == rest;
      assert der[idx..end][0] == INTEGER;
    } else {
      var v := Tlv(INTEGER, [c.version % 0x100]);
      var w := Field1(der, idx, end, CTX0, v, rest);
      assert v + [] == v;
      var h := Exact1(der, w.start, w.End(), INTEGER, [c.version % 0x100]);
      assert der[h.start..h.End()][0] == c.version;
      at := w.End();
    }
  }

  lemma FrontRead(der: bytes, idx: nat, end: nat, c: Certificate, rest: bytes) returns (f: Front)
    requires Here(der, idx, end, c.FrontBytes(), rest) && c.Framed()
    ensures FrontAt(der, idx, end) == Ok(f) && f.version == c.version
    ensures f.next <= end && der[f.next..end] == rest && f.inner.In(der) && f.inner.Of(der) == c.sigAlg.Encode()
  {
    hide Tlv, HeaderAt, VersionAt, Certificate.VersionBytes, AlgId.Content;
    var v3 := Tlv(SEQ, c.issuer);
    var v2 := c.sigAlg.Encode() + (v3 + rest);
    var v1 := Tlv(INTEGER, c.serial) + v2;
    assert c.FrontBytes() + rest == c.VersionBytes() + v1;
    assert v1[0] == INTEGER;
    var at := VersionRead(der, idx, end, c, v1);
    var serial := Field1(der, at, end, INTEGER, c.serial, v2);
    var inner := Field1(der, serial.End(), end, SEQ, c.sigAlg.Content(), v3 + rest);
    var issuer := Field1(der, inner.End(), end, SEQ, c.issuer, rest);
    f := Front(c.version, Slice(serial.End(), inner.End() - serial.End()), issuer.End());
  }

  lemma TimeRead(der: bytes, idx: nat, end: nat, t: Field, rest: bytes) returns (s: Slice)
    requires Here(der, idx, end, t.Encode(), rest) && IsTime(t)
    ensures var next := idx + |t.Encode()|;
      && next <= end && TimeAt(der, idx, end) == Ok((s, next)) && der[next..end] == rest
      && s.In(der) && s.Of(der) == Kept(t)
  {
    hide Tlv, HeaderAt;
    var h := Field1(der, idx, end, t.tag, t.content, rest);
    s := Slice(idx, (h.End() - idx) % 0x1_0000);
    assert der[idx..idx + s.len] == der[idx..h.End()][..s.len];
  }

  // ----- the subject's common name ---------------------------------------------------------

  /** The slice `cn` holds the name `name`, or there is neither. */
  ghost predicate Holds(der: bytes, cn: Option<Slice>, name: Option<bytes>) {
    && (cn.Some? <==> name.Some?)
    && (cn.Some? ==> cn.value.In(der) && cn.value.Of(der) == name.value)
  }

  /** If the subject is a well-formed distinguished name, `cn` is its commonName. */
  ghost predicate CnRecovered(der: bytes, cn: Option<Slice>, subject: bytes) {
    forall rdns :: subject == EncName(rdns) ==> Holds(der, cn, CommonName(rdns))
  }

  lemma CnValueRead(der: bytes, idx: nat, end: nat, a: Attribute)
    requires Here(der, idx, end, Tlv(a.tag, a.content), []) && a.oid == OID_CN
    ensures Holds(der, CnValueAt(der, idx, end), if a.NamesHost() then Some(a.content) else None)
  {
    hide Tlv, HeaderAt;
    var h := Field1(der, idx, end, a.tag, a.content, []);
  }

  lemma {:induction false} CnInRdnRead(der: bytes, idx: nat, end: nat, atts: seq<Attribute>)
    requires Here(der, idx, end, EncAttributes(atts), [])
    ensures Holds(der, CnInRdn(der, idx, end), FirstIn(atts))
    decreases |atts|
  {
    hide Tlv, HeaderAt, CnValueAt;
    if atts == [] {
      assert |der[idx..end]| == 0;
    } else {
      var a, rest := atts[0], EncAttributes(atts[1..]);
      assert EncAttributes(atts) + [] == Tlv(SEQ, a.Content()) + rest && rest + [] == rest;
      var h := Field1(der, idx, end, SEQ, a.Content(), rest);
      var o := Field1(der, h.start, h.End(), OBJECT_ID, a.oid, Tlv(a.tag, a.content));
      assert Tlv(a.tag, a.content) + [] == Tlv(a.tag, a.content);
      if a.oid == OID_CN {
        CnValueRead(der, o.End(), h.End(), a);
      }
      CnInRdnRead(der, h.End(), end, atts[1..]);
    }
  }

  /** The search over an encoded distinguished name finds its commonName. */
  lemma {:induction false} CnRead(der: bytes, idx: nat, end: nat, rdns: seq<seq<Attribute>>)
    requires Here(der, idx, end, EncName(rdns), [])
    ensures Holds(der, CnAt(der, idx, end), CommonName(rdns))
    decreases |rdns|
  {
    hide Tlv, HeaderAt, CnInRdn;
    if rdns == [] {
      assert |der[idx..end]| == 0;
    } else {
      var inner, rest := EncAttributes(rdns[0]), EncName(rdns[1..]);
      assert EncName(rdns) + [] == Tlv(SET_OF, inner) + rest && rest + [] == rest && inner + [] == inner;
      var h := Field1(der, idx, end, SET_OF, inner, rest);
      CnInRdnRead(der, h.start, h.End(), rdns[0]);
      CnRead(der, h.End(), end, rdns[1..]);
    }
  }

  lemma SubjectRead(der: bytes, start: nat, end: nat, subject: bytes)
    requires start <= end <= |der| < LEN_LIMIT && der[start..end] == subject
    ensures CnRecovered(der, CnAt(der, start, end), subject)
  {
    forall rdns | subject == EncName(rdns)
      ensures Holds(der, CnAt(der, start, end), CommonName(rdns))
    {
      assert subject + [] == subject;
      CnRead(der, start, end, rdns);
    }
  }

  lemma MiddleRead(der: bytes, idx: nat, end: nat, c: Certificate, rest: bytes) returns (m: Middle)
    requires Here(der, idx, end, c.MiddleBytes(), rest) && c.Framed()
    ensures MiddleAt(der, idx, end) == Ok(m) && m.next <= end && der[m.next..end] == rest
    ensures m.notBefore.In(der) && m.notBefore.Of(der) == Kept(c.notBefore)
    ensures m.notAfter.In(der) && m.notAfter.Of(der) == Kept(c.notAfter)
    ensures CnRecovered(der, m.cn, c.subject)
  {
    hide Tlv, HeaderAt, TimeAt, CnAt, Field.Encode, Kept, CnRecovered;
    var nb, na := c.notBefore.Encode(), c.notAfter.Encode();
    var subject := Tlv(SEQ, c.subject) + rest;
    assert c.MiddleBytes() + rest == Tlv(SEQ, nb + na) + subject;
    var val := Field1(der, idx, end, SEQ, nb + na, subject);
    var s1 := TimeRead(der, val.start, val.End(), c.notBefore, na);
    assert na + [] == na;
    var s2 := TimeRead(der, val.start + |nb|, val.End(), c.notAfter, []);
    assert val.start + |nb| + |na| == val.End();
    var sub := Field1(der, val.End(), end, SEQ, c.subject, rest);
    SubjectRead(der, sub.start, sub.End(), c.subject);
    m := Middle(s1, s2, CnAt(der, sub.start, sub.End()), sub.End());
  }

  lemma BitStringRead(der: bytes, idx: nat, end: nat, key: bytes) returns (h: Header)
    requires Here(der, idx, end, Tlv(BIT_STRING, [0] + key), [])
    ensures BitStringAt(der, idx, end) == Some(h) && h.End() == end && der[h.start..end] == key
  {
    hide Tlv, HeaderAt;
    var b := Exact1(der, idx, end, BIT_STRING, [0] + key);
    var v := der[b.start..end];
    assert v[0] == 0 && v[1..] == key;
    h := Header(b.start + 1, b.len - 1);
  }

  lemma AlgIdRead(der: bytes, idx: nat, end: nat, a: AlgId) returns (curve: Curve)
    requires Here(der, idx, end, a.Content(), []) && KeyParamsOk(a)
    ensures AlgIdAt(der, idx, end) == Ok((KeyAlgOf(a.oid), curve))
    ensures KeyAlgOf(a.oid) == KeyEcdsa ==> exists o :: a.params == Tlv(OBJECT_ID, o) && curve == CurveOf(o)
    ensures KeyAlgOf(a.oid) != KeyEcdsa ==> curve == CurveNone
  {
    hide Tlv, HeaderAt, KeyAlgOf, CurveOf;
    assert a.Content() + [] == Tlv(OBJECT_ID, a.oid) + a.params;
    var o := Field1(der, idx, end, OBJECT_ID, a.oid, a.params);
    curve := CurveNone;
    assert a.params + [] == a.params;
    if KeyAlgOf(a.oid) == KeyEcdsa {
      var x :| a.params == Tlv(OBJECT_ID, x);
      var p := Exact1(der, o.End(), end, OBJECT_ID, x);
      curve := CurveOf(x);
    } else if KeyAlgOf(a.oid) == KeyRsa {
      NullIsTlv();
      var p := Exact1(der, o.End(), end, NULL, []);
    }
  }

  lemma NullIsTlv()
    ensures [NULL, 0] == Tlv(NULL, [])
  {}

  lemma SpkiRead(der: bytes, idx: nat, end: nat, c: Certificate, rest: bytes) returns (k: Spki)
    requires Here(der, idx, end, c.Spki(), rest) && c.Framed()
    ensures SpkiAt(der, idx, end) == Ok(k) && k.next <= end && der[k.next..end] == rest
    ensures k.spki.In(der) && k.spki.Of(der) == c.Spki() && k.key.In(der) && k.key.Of(der) == c.key
    ensures k.keyAlg == KeyAlgOf(c.keyAlg.oid)
    ensures k.keyAlg == KeyEcdsa ==> exists o :: c.keyAlg.params == Tlv(OBJECT_ID, o) && k.curve == CurveOf(o)
    ensures k.keyAlg != KeyEcdsa ==> k.curve == CurveNone
  {
    hide Tlv, HeaderAt, AlgIdAt, BitStringAt, KeyAlgOf, CurveOf, KeyParamsOk, AlgId.Content;
    var keyBits := Tlv(BIT_STRING, [0] + c.key);
    var s := Field1(der, idx, end, SEQ, c.keyAlg.Encode() + keyBits, rest);
    var alg := Field1(der, s.start, s.End(), SEQ, c.keyAlg.Content(), keyBits);
    assert c.keyAlg.Content() + [] == c.keyAlg.Content() && keyBits + [] == keyBits;
    var curve := AlgIdRead(der, alg.start, alg.End(), c.keyAlg);
    var key := BitStringRead(der, alg.End(), s.End(), c.key);
    k := Spki(Slice(idx, s.End() - idx), KeyAlgOf(c.keyAlg.oid), curve, Slice(key.start, key.len), s.End());
  }

  lemma SignatureRead(der: bytes, idx: nat, c: Certificate, inner: Slice) returns (sig: Slice)
    requires Here(der, idx, |der|, c.sigAlg.Encode() + Tlv(BIT_STRING, [0] + c.sig), []) && c.Framed()
    requires inner.In(der) && inner.Of(der) == c.sigAlg.Encode()
    ensures SignatureAt(der, idx, inner) == Ok((SigAlgOf(c.sigAlg.oid), sig))
    ensures sig.In(der) && sig.off + sig.len == |der| && sig.Of(der) == c.sig
  {
    hide Tlv, HeaderAt, BitStringAt, SigAlgOf;
    var a, bits := c.sigAlg, Tlv(BIT_STRING, [0] + c.sig);
    assert a.Encode() + bits + [] == Tlv(SEQ, a.Content()) + bits;
    var outer := Field1(der, idx, |der|, SEQ, a.Content(), bits);
    assert a.Content() + [] == Tlv(OBJECT_ID, a.oid) + a.params;
    var o := Field1(der, outer.start, outer.End(), OBJECT_ID, a.oid, a.params);
    if IsRsa(SigAlgOf(a.oid)) {
      var p := der[o.End()..outer.End()];
      assert p[0] == NULL && p[1] == 0 && |p| == 2;
    }
    assert bits + [] == bits;
    var h := BitStringRead(der, outer.End(), |der|, c.sig);
    sig := Slice(h.start, h.len);
  }

  // ----- the certificate -------------------------------------------------------------------

  /** The parsed fields hold exactly what the certificate was made of. */
  ghost predicate Recovered(c: Certificate, p: Cert, sum: Summary) {
    var der := c.Encode();
    && p.tbs.In(der) && p.tbs.Of(der) == c.Tbs()
    && p.spki.In(der) && p.spki.Of(der) == c.Spki()
    && p.pubKey.In(der) && p.pubKey.Of(der) == c.key
    && p.sig.In(der) && p.sig.Of(der) == c.sig
    && p.notBefore.In(der) && p.notBefore.Of(der) == Kept(c.notBefore)
    && p.notAfter.In(der) && p.notAfter.Of(der) == Kept(c.notAfter)
    && CnRecovered(der, p.cn, c.subject)
    && p.sigAlg == SigAlgOf(c.sigAlg.oid) && p.keyAlg == KeyAlgOf(c.keyAlg.oid)
    && (p.keyAlg == KeyEcdsa ==> exists o :: c.keyAlg.params == Tlv(OBJECT_ID, o) && p.curve == CurveOf(o))
    && (p.keyAlg != KeyEcdsa ==> p.curve == CurveNone)
    && AllIn(der, p.ext.san) && Abstract(der, p.ext) == sum
  }

  ghost predicate TbsRecovered(der: bytes, c: Certificate, t: Tbs, sum: Summary) {
    && t.inner.In(der) && t.inner.Of(der) == c.sigAlg.Encode()
    && t.spki.spki.In(der) && t.spki.spki.Of(der) == c.Spki() && t.spki.key.In(der) && t.spki.key.Of(der) == c.key
    && t.spki.keyAlg == KeyAlgOf(c.keyAlg.oid)
    && (t.spki.keyAlg == KeyEcdsa ==> exists o :: c.keyAlg.params == Tlv(OBJECT_ID, o) && t.spki.curve == CurveOf(o))
    && (t.spki.keyAlg != KeyEcdsa ==> t.spki.curve == CurveNone)
    && t.mid.notBefore.In(der) && t.mid.notBefore.Of(der) == Kept(c.notBefore)
    && t.mid.notAfter.In(der) && t.mid.notAfter.Of(der) == Kept(c.notAfter)
    && CnRecovered(der, t.mid.cn, c.subject)
    && AllIn(der, t.ext.san) && Abstract(der, t.ext) == sum
  }

  function Extensions(c: Certificate): seq<Extension> { if c.exts.Some? then c.exts.value else [] }

  lemma TbsRead(der: bytes, idx: nat, end: nat, c: Certificate)
    requires Here(der, idx, end, c.TbsContent(), []) && c.Framed()
    ensures var r := TbsAt(der, idx, end);
      match Fold(Extensions(c), EMPTY)
      case Fail(status) => r == Fail(status)
      case Ok(sum) => r.Ok? && TbsRecovered(der, c, r.value, sum)
  {
    hide Tlv, FrontAt, MiddleAt, SpkiAt, ExtensionsAt, Fold, KeyAlgOf, CurveOf, Certificate.FrontBytes,
        Certificate.MiddleBytes,
         Certificate.Spki, Certificate.ExtBytes, Certificate.Framed;
    var x3 := c.Spki() + c.ExtBytes();
    var x2 := c.MiddleBytes() + x3;
    assert c.TbsContent() + [] == c.FrontBytes() + x2;
    var f := FrontRead(der, idx, end, c, x2);
    var m := MiddleRead(der, f.next, end, c, x3);
    var k := SpkiRead(der, m.next, end, c, c.ExtBytes());
    assert c.ExtBytes() + [] == c.ExtBytes();
    ExtensionsRead(der, k.next, end, c);
  }

  /**
   * Certificate print and parse: on the encoding of any certificate of the profile the parser
   * reports what the fold over the extension list reports, and if that is a summary, it recovers
   * every field.
   */
  lemma ParsePrint(c: Certificate)
    requires c.Framed() && |c.Encode()| < LEN_LIMIT
    ensures var r := ParseCert(c.Encode());
      match Fold(Extensions(c), EMPTY)
      case Fail(status) => r == Fail(status)
      case Ok(sum) => r.Ok? && Recovered(c, r.value, sum)
  {
    hide Tlv, HeaderAt, TbsAt, SignatureAt, Fold, KeyAlgOf, CurveOf, SigAlgOf, Abstract, AllIn, Certificate.TbsContent,
         Certificate.Framed, Certificate.Spki, AlgId.Encode, Field.Encode;
    var der := c.Encode();
    var tail := c.sigAlg.Encode() + Tlv(BIT_STRING, [0] + c.sig);
    assert der[0..|der|] == der && der + [] == der && tail + [] == tail && c.TbsContent() + [] == c.TbsContent();
    var outer := Exact1(der, 0, |der|, SEQ, c.Tbs() + tail);
    var h := Field1(der, outer.start, |der|, SEQ, c.TbsContent(), tail);
    TbsRead(der, h.start, h.End(), c);
    var t := TbsAt(der, h.start, h.End());
    if t.Ok? {
      var sig := SignatureRead(der, h.End(), c, t.value.inner);
    }
  }

  // ----- containment and prefixes ----------------------------------------------------------

  predicate Inside(a: Slice, b: Slice) { b.off <= a.off && a.off + a.len <= b.off + b.len }

  /** In every accepted certificate the key lies in the SPKI, the SPKI in the tbs, the signature behind it and last. */
  lemma Containment(der: bytes)
    requires ParseCert(der).Ok?
    ensures var p := ParseCert(der).value;
      && p.tbs.In(der) && Inside(p.spki, p.tbs) && Inside(p.pubKey, p.spki)
      && p.tbs.off + p.tbs.len < p.sig.off && p.sig.off + p.sig.len == |der|
      && Inside(p.notBefore, p.tbs) && Inside(p.notAfter, p.tbs)
  {
    hide HeaderAt, BitStringAt, AlgIdAt, FrontAt, CnAt, ExtensionsAt, SigAlgOf, TimeAt;
    var outer := ExactAt(der, 0, |der|, SEQ).value;
    var h := HeaderAt(der, outer.start, |der|, SEQ).value;
    var front := FrontAt(der, h.start, h.End()).value;
    MiddleInside(der, front.next, h.End());
  }

  lemma MiddleInside(der: bytes, idx: nat, end: nat)
    requires idx <= end <= |der| && MiddleAt(der, idx, end).Ok?
    ensures var m := MiddleAt(der, idx, end).value;
      && idx <= m.notBefore.off && m.notBefore.off + m.notBefore.len <= end
      && idx <= m.notAfter.off && m.notAfter.off + m.notAfter.len <= end
  {}

  /** No accepted input is a proper prefix of another. */
  lemma PrefixFree(a: bytes, b: bytes)
    requires ParseCert(a).Ok? && ParseCert(b).Ok? && a <= b
    ensures a == b
  {
    hide CertBodyAt, HeaderAt;
    var ha, hb := HeaderAt(a, 0, |a|, SEQ).value, HeaderAt(b, 0, |b|, SEQ).value;
    HeaderExactly(a, 0, |a|, SEQ, ha);
    HeaderExactly(b, 0, |b|, SEQ, ha);
    assert b[0..ha.End()] == a[0..ha.End()];
    assert b[ha.start..ha.End()] == a[ha.start..ha.End()];
  }
}
