/**
 * The certificate client's ClientHello (`wn_ClientHello_Build_ex`), its round trip through the
 * server's parser, and the server's search of the offered schemes (`wn_ClientHello_HasSigAlg`).
 */
module CertHello {
  import opened Bytes
  import opened Msg
  import opened ClientHelloSpec
  import opened HelloGrammar
  import opened PskHello

  const SNI_MAX_HOST: nat := 255

  // ed25519, the two ECDSA schemes, the three RSA-PSS schemes.
  const SCHEMES: bytes := [0x08, 0x07, 0x05, 0x03, 0x04, 0x03, 0x08, 0x06, 0x08, 0x05, 0x08, 0x04]

  const SCHEMES_BODY: bytes := U16(12) + SCHEMES

  function SniBody(name: bytes): (r: bytes)
    ensures |r| == 5 + |name|
  {
    U16(3 + |name|) + (U8(0) + (U16(|name|) + name))
  }

  function SniExt(name: bytes): seq<Ext> {
    if name == [] then [] else [Ext(EXT_SERVER_NAME, SniBody(name))]
  }

  function CertExts(pub: bytes): seq<Ext> {
    [Ext(EXT_VERSIONS, VERSIONS_BODY), Ext(EXT_GROUPS, GROUPS_BODY), Ext(EXT_SIG_ALGS, SCHEMES_BODY),
     Ext(EXT_KEY_SHARE, ShareBody(pub))]
  }

  /** The client's message; an empty `name` stands for no server_name. */
  function CertHelloBytes(random: bytes, sid: bytes, pub: bytes, name: bytes): bytes {
    HelloBytes(random, sid, U16(CIPHER), EncExts(SniExt(name) + CertExts(pub)))
  }

  // ----- the builder -----------------------------------------------------------------------

  method PutSni(w: Writer, name: bytes)
    requires w.Valid() && |name| <= SNI_MAX_HOST
    modifies w, w.buf
    ensures w.Wrote(EncExts(SniExt(name)))
  {
    hide U8, U16;
    if |name| > 0 {
      ghost var c := w.Contents();
      w.PutU16(EXT_SERVER_NAME);
      w.PutU16(2 + 1 + 2 + |name|);
      PutSniBody(w, name);
      OneExt(Ext(EXT_SERVER_NAME, SniBody(name)));
      if !w.err {
        Join(c, U16(EXT_SERVER_NAME), U16(5 + |name|));
        Join(c, U16(EXT_SERVER_NAME) + U16(5 + |name|), SniBody(name));
      }
    } else {
      assert w.Contents() + [] == w.Contents();
    }
  }

  method PutSniBody(w: Writer, name: bytes)
    requires w.Valid() && |name| <= SNI_MAX_HOST
    modifies w, w.buf
    ensures w.Wrote(SniBody(name))
  {
    hide U8, U16;
    ghost var c := w.Contents();
    w.PutU16(1 + 2 + |name|);
    w.PutU8(0);
    w.PutU16(|name|);
    w.PutBytes(name);
    if !w.err {
      Join(c + U16(3 + |name|) + U8(0), U16(|name|), name);
      Join(c + U16(3 + |name|), U8(0), U16(|name|) + name);
      Join(c, U16(3 + |name|), U8(0) + (U16(|name|) + name));
    }
  }

  lemma OneExt(e: Ext)
    ensures EncExts([e]) == EncExt(e)
  {}

  method PutSchemes(w: Writer)
    requires w.Valid()
    modifies w, w.buf
    ensures w.Wrote(SCHEMES)
  {
    hide U16;
    PutThree(w, 0x0807, 0x0503, 0x0403);
    PutThree(w, 0x0806, 0x0805, 0x0804);
    SchemesAre(old(w.Contents()));
  }

  method PutThree(w: Writer, a: nat, b: nat, d: nat)
    requires w.Valid()
    modifies w, w.buf
    ensures w.Wrote(U16(a) + U16(b) + U16(d))
  {
    hide U16;
    w.PutU16(a);
    w.PutU16(b);
    w.PutU16(d);
    ghost var c := old(w.Contents());
    assert c + U16(a) + U16(b) + U16(d) == c + (U16(a) + U16(b) + U16(d));
  }

  lemma SchemesAre(c: bytes)
    ensures c + (U16(0x0807) + U16(0x0503) + U16(0x0403)) + (U16(0x0806) + U16(0x0805) + U16(0x0804)) == c + SCHEMES
  {
    var ec, rsa := U16(0x0807) + U16(0x0503) + U16(0x0403), U16(0x0806) + U16(0x0805) + U16(0x0804);
    assert ec + rsa == SCHEMES;
    Join(c, ec, rsa);
  }

  /** signature_algorithms, its two lengths sized by what is written. */
  method PutSchemesExt(w: Writer)
    requires w.Valid()
    modifies w, w.buf
    ensures w.Wrote(EncExt(Ext(EXT_SIG_ALGS, SCHEMES_BODY)))
  {
    hide U16, Be, SCHEMES;
    ghost var c := w.Contents();
    w.PutU16(EXT_SIG_ALGS);
    var saExt := w.LenStart(2);
    var saList := w.LenStart(2);
    PutSchemes(w);
    SchemesSize();
    w.LenEnd(saList, 2);
    if !w.err {
      PatchedPrefix(c + U16(EXT_SIG_ALGS) + Zeros(2), Zeros(2), SCHEMES);
      BeWidths(12);
    }
    w.LenEnd(saExt, 2);
    if !w.err {
      PatchedPrefix(c + U16(EXT_SIG_ALGS), Zeros(2), SCHEMES_BODY);
      BeWidths(14);
      Join(c, U16(EXT_SIG_ALGS), U16(14) + SCHEMES_BODY);
      Join(U16(EXT_SIG_ALGS), U16(14), SCHEMES_BODY);
    }
  }

  lemma SchemesSize()
    ensures |SCHEMES| == 12 && |SCHEMES_BODY| == 14
  {}

  lemma ExtsAppend(a: seq<Ext>, b: seq<Ext>)
    requires |a| <= 1
    ensures EncExts(a + b) == EncExts(a) + EncExts(b)
  {
    if a == [] {
      assert a + b == b && [] + EncExts(b) == EncExts(b);
    } else {
      assert (a + b)[1..] == b;
      OneExt(a[0]);
      assert a == [a[0]];
    }
  }

  lemma CertExtsAre(pub: bytes)
    ensures EncExts(CertExts(pub))
         == EncExt(Ext(EXT_VERSIONS, VERSIONS_BODY)) + (EncExt(Ext(EXT_GROUPS, GROUPS_BODY))
            + (EncExt(Ext(EXT_SIG_ALGS, SCHEMES_BODY)) + EncExt(Ext(EXT_KEY_SHARE, ShareBody(pub)))))
  {
    hide EncExt;
    var es := CertExts(pub);
    assert es[1..] == [es[1], es[2], es[3]] && es[1..][1..] == [es[2], es[3]] && es[1..][1..][1..] == [es[3]];
    OneExt(es[3]);
    assert EncExts([es[2], es[3]]) == EncExt(es[2]) + EncExts([es[3]]);
    assert EncExts([es[1], es[2], es[3]]) == EncExt(es[1]) + EncExts([es[2], es[3]]);
  }

  method PutCertExts(w: Writer, pub: bytes)
    requires w.Valid() && |pub| == PUB_SZ
    modifies w, w.buf
    ensures w.Wrote(EncExts(CertExts(pub)))
  {
    hide EncExt, EncExts;
    ghost var c := w.Contents();
    ghost var e0, e1 := EncExt(Ext(EXT_VERSIONS, VERSIONS_BODY)), EncExt(Ext(EXT_GROUPS, GROUPS_BODY));
    ghost var e2, e3 := EncExt(Ext(EXT_SIG_ALGS, SCHEMES_BODY)), EncExt(Ext(EXT_KEY_SHARE, ShareBody(pub)));
    PutVersions(w);
    PutGroups(w);
    PutSchemesExt(w);
    PutKeyShare(w, pub);
    CertExtsAre(pub);
    if !w.err {
      Join(c + e0 + e1, e2, e3);
      Join(c + e0, e1, e2 + e3);
      Join(c, e0, e1 + (e2 + e3));
    }
  }

  method PutBody(w: Writer, random: bytes, sid: bytes, pub: bytes, name: bytes)
    requires w.Valid() && |random| == 32 && |sid| <= 32 && |pub| == PUB_SZ && |name| <= SNI_MAX_HOST
    modifies w, w.buf
    ensures w.Wrote(HelloBody(random, sid, U16(CIPHER), EncExts(SniExt(name) + CertExts(pub))))
  {
    hide HeadFields, EncExts, SniExt, CertExts, HelloBody, U16, Be, Patched;
    ghost var head, sni, rest := HeadFields(random, sid, U16(CIPHER)), EncExts(SniExt(name)), EncExts(CertExts(pub));
    PutHead(w, random, sid);
    ghost var pre := w.Contents();
    var extLen := w.LenStart(2);
    PutSni(w, name);
    PutCertExts(w, pub);
    w.LenEnd(extLen, 2);
    SniSize(name);
    ExtsAppend(SniExt(name), CertExts(pub));
    BodyFromHead(random, sid, U16(CIPHER), sni + rest);
    if !w.err {
      Join(pre + Zeros(2), sni, rest);
      PatchedPrefix(pre, Zeros(2), sni + rest);
      BeWidths(|sni + rest|);
      Join(old(w.Contents()), head, U16(|sni + rest|) + (sni + rest));
    }
  }

  lemma SniSize(name: bytes)
    ensures |SniExt(name)| <= 1
  {}

  /** `wn_ClientHello_Build_ex`: `name` is empty when no server name is given. */
  method BuildCertHello(buf: array<byte>, base: nat, cap: nat, random: bytes, sid: bytes, pub: bytes, name: bytes)
    returns (ret: Status, len: nat)
    requires base + cap <= buf.Length && cap <= MAX_BUFFER && |random| == 32
    modifies buf
    ensures OnlyChanged(buf, base, base + cap)
    ensures var m := CertHelloBytes(random, sid, pub, name);
      && ret == (if |pub| == PUB_SZ && |sid| <= 32 && |name| <= SNI_MAX_HOST && |m| <= cap then Success else InvalidArg)
      && (ret == Success ==> len == |m| && buf[base..base + len] == m)
  {
    hide HelloBody, SniExt, CertExts, U8, U16, U24, Be, EncExts, Patched;
    ret, len := Success, 0;
    if |pub| != PUB_SZ || |sid| > 32 || |name| > SNI_MAX_HOST {
      ret := InvalidArg;
    } else {
      ghost var body := HelloBody(random, sid, U16(CIPHER), EncExts(SniExt(name) + CertExts(pub)));
      var w := new Writer(buf, base, cap);
      w.PutU8(HS_CLIENT_HELLO);
      var hsLen := w.LenStart(3);
      PutBody(w, random, sid, pub, name);
      w.LenEnd(hsLen, 3);
      MessageClosed(body);
      if w.err {
        ret := InvalidArg;
      } else {
        len := w.len;
      }
    }
  }

  // The two lengths patched, from the inside out.
  lemma MessageClosed(body: bytes)
    ensures [] + U8(HS_CLIENT_HELLO) == U8(HS_CLIENT_HELLO) == [HS_CLIENT_HELLO]
    ensures Patched(U8(HS_CLIENT_HELLO) + Zeros(3) + body, 4, 3) == [HS_CLIENT_HELLO] + (U24(|body|) + body)
  {
    hide U24, Be;
    PatchedPrefix(U8(HS_CLIENT_HELLO), Zeros(3), body);
    BeWidths(|body|);
  }

  // ----- what the server reads -------------------------------------------------------------

  // The octets server_name takes.
  function SniLen(name: bytes): nat { if name == [] then 0 else 9 + |name| }

  /** The server's reading: the share and the schemes stand behind server_name. */
  function CertParsed(sidLen: nat, name: bytes): Parsed {
    var at := 47 + sidLen + SniLen(name);
    Parsed(Slice(39, sidLen), Some(Slice(at + 43, 32)), Some(Slice(at + 21, 12)), None)
  }

  lemma ExtBlockSize(pub: bytes, name: bytes)
    requires |pub| == PUB_SZ
    ensures |EncExts(SniExt(name) + CertExts(pub))| == SniLen(name) + 75
    ensures |EncExts(SniExt(name))| == SniLen(name)
  {
    SniSize(name);
    ExtsAppend(SniExt(name), CertExts(pub));
    CertExtsAre(pub);
    if name != [] {
      OneExt(Ext(EXT_SERVER_NAME, SniBody(name)));
    }
  }

  // One of the client's own extensions, when its type has not been seen.
  ghost predicate New(k: Known, et: nat) { k.psk.None? && et !in k.seen && |k.seen| < MAX_EXTS }

  lemma VersionsLearnt(k: Known, at: nat)
    requires New(k, EXT_VERSIONS)
    ensures Learn(k, EXT_VERSIONS, VERSIONS_BODY, at) == Some(k.(seen := k.seen + [43], tls13 := true))
  {
    hide VersionsBody, Words;
    OwnGroups();
  }

  lemma GroupsLearnt(k: Known, at: nat)
    requires New(k, EXT_GROUPS)
    ensures Learn(k, EXT_GROUPS, GROUPS_BODY, at)
         == Some(k.(seen := k.seen + [10], haveGroups := true, groupOffered := true))
  {
    hide GroupsBody, Words;
    OwnGroups();
  }

  lemma SchemesLearnt(k: Known, at: nat)
    requires New(k, EXT_SIG_ALGS)
    ensures Learn(k, EXT_SIG_ALGS, SCHEMES_BODY, at)
        == Some(k.(seen := k.seen + [13], sigAlgs := Some(Slice(at + 2, 12))))
  {}

  lemma ShareLearnt(k: Known, pub: bytes, at: nat)
    requires New(k, EXT_KEY_SHARE) && |pub| == PUB_SZ
    ensures Learn(k, EXT_KEY_SHARE, ShareBody(pub), at)
        == Some(k.(seen := k.seen + [51], keyShare := Some(Slice(at + 6, 32))))
  {
    hide KeyShareBody, ShareBody;
    OwnShare(pub, at);
  }

  lemma BodySizes(pub: bytes)
    requires |pub| == PUB_SZ
    ensures |VERSIONS_BODY| == 3 && |GROUPS_BODY| == 4 && |SCHEMES_BODY| == 14 && |ShareBody(pub)| == 38
  {}

  lemma CertLearnt(pub: bytes, at: nat, k: Known)
    requires |pub| == PUB_SZ && k.psk.None? && |k.seen| <= 1 && (k.seen == [] || k.seen == [EXT_SERVER_NAME])
    ensures LearnAll(CertExts(pub), at, k)
         == Some(k.(seen := k.seen + [43] + [10] + [13] + [51], tls13 := true, haveGroups := true, groupOffered := true,
                    sigAlgs := Some(Slice(at + 21, 12)), keyShare := Some(Slice(at + 43, 32))))
  {
    hide LearnAll, Learn, ShareBody, VERSIONS_BODY, GROUPS_BODY, SCHEMES_BODY;
    var es := CertExts(pub);
    BodySizes(pub);
    var k1 := k.(seen := k.seen + [43], tls13 := true);
    var k2 := k1.(seen := k1.seen + [10], haveGroups := true, groupOffered := true);
    var k3 := k2.(seen := k2.seen + [13], sigAlgs := Some(Slice(at + 21, 12)));
    var k4 := k3.(seen := k3.seen + [51], keyShare := Some(Slice(at + 43, 32)));
    assert es[0..] == es;
    VersionsLearnt(k, at + 4);
    LearnStep(es, 0, at, k, k1);
    GroupsLearnt(k1, at + 11);
    LearnStep(es, 1, at + 7, k1, k2);
    SchemesLearnt(k2, at + 19);
    LearnStep(es, 2, at + 15, k2, k3);
    ShareLearnt(k3, pub, at + 37);
    LearnStep(es, 3, at + 33, k3, k4);
    NothingLeft(es[4..], at + 75, k4);
  }

  lemma NothingLeft(es: seq<Ext>, at: nat, k: Known)
    requires es == []
    ensures LearnAll(es, at, k) == Some(k)
  {}

  lemma BlockLearnt(pub: bytes, name: bytes, at: nat)
    requires |pub| == PUB_SZ
    ensures var r := LearnAll(SniExt(name) + CertExts(pub), at, NOTHING);
      && r.Some? && Acceptable(true, r.value)
      && r.value.sigAlgs == Some(Slice(at + SniLen(name) + 21, 12))
      && r.value.keyShare == Some(Slice(at + SniLen(name) + 43, 32)) && r.value.psk == None
  {
    hide LearnAll, CertExts;
    if name == [] {
      assert SniExt(name) + CertExts(pub) == CertExts(pub);
      CertLearnt(pub, at, NOTHING);
    } else {
      var es := SniExt(name) + CertExts(pub);
      var k := NOTHING.(seen := [EXT_SERVER_NAME]);
      assert NOTHING.seen + [EXT_SERVER_NAME] == k.seen;
      assert es[0..] == es && es[1..] == CertExts(pub);
      LearnStep(es, 0, at, NOTHING, k);
      CertLearnt(pub, at + 9 + |name|, k);
    }
  }

  lemma CertHelloWellFormed(random: bytes, sid: bytes, pub: bytes, name: bytes)
    requires |random| == 32 && |sid| <= 32 && |pub| == PUB_SZ && |name| <= SNI_MAX_HOST
    ensures Hello(random, sid, U16(CIPHER), SniExt(name) + CertExts(pub)).WellFormed()
  {
    hide EncExts;
    ExtBlockSize(pub, name);
    var es := SniExt(name) + CertExts(pub);
    forall i | 0 <= i < |es|
      ensures es[i].etype < 0x1_0000 && |es[i].body| < 0x1_0000
    {
      SchemesSize();
    }
  }

  /** Certificate ClientHello round trip: accepted, with every field where it was written. */
  lemma CertHelloRoundTrip(random: bytes, sid: bytes, pub: bytes, name: bytes)
    requires |random| == 32 && |sid| <= 32 && |pub| == PUB_SZ && |name| <= SNI_MAX_HOST
    ensures ParseHello(CertHelloBytes(random, sid, pub, name)) == Accept(CertParsed(|sid|, name))
  {
    hide LearnAll, HelloBytes, EncExts, ParseHello, SniExt, CertExts, Hello.WellFormed, Acceptable;
    var h := Hello(random, sid, U16(CIPHER), SniExt(name) + CertExts(pub));
    CertHelloWellFormed(random, sid, pub, name);
    ParseOfEncode(h);
    assert Words(U16(CIPHER))[0] == CIPHER;
    BlockLearnt(pub, name, 47 + |sid|);
  }

  lemma CertExtsLayout(pub: bytes)
    requires |pub| == PUB_SZ
    ensures var e := EncExts(CertExts(pub)); |e| == 75 && e[21..33] == SCHEMES && e[43..75] == pub
  {
    hide SCHEMES;
    SchemesSize();
    CertExtsAre(pub);
    var e := EncExts(CertExts(pub));
    assert e[15..33] == EncExt(Ext(EXT_SIG_ALGS, SCHEMES_BODY));
    assert e[33..75] == EncExt(Ext(EXT_KEY_SHARE, ShareBody(pub)));
    SubSlice(e, 15, 33, 6, 18);
    SubSlice(e, 33, 75, 10, 42);
  }

  /** The slices the server keeps hold the session id, the share and the offered schemes. */
  lemma CertHelloFields(random: bytes, sid: bytes, pub: bytes, name: bytes)
    requires |random| == 32 && |sid| <= 32 && |pub| == PUB_SZ && |name| <= SNI_MAX_HOST
    ensures var m, p := CertHelloBytes(random, sid, pub, name), CertParsed(|sid|, name);
      && |m| == 122 + |sid| + SniLen(name) && Num24(m, 1) == |m| - 4
      && p.sid.In(m) && p.sid.Of(m) == sid
      && p.keyShare.value.In(m) && p.keyShare.value.Of(m) == pub
      && p.sigAlgs.value.In(m) && p.sigAlgs.value.Of(m) == SCHEMES
  {
    hide HelloBytes, EncExts, SniExt, CertExts, SCHEMES, Num24, U24;
    var m := CertHelloBytes(random, sid, pub, name);
    var exts := EncExts(SniExt(name) + CertExts(pub));
    HelloLayout(random, sid, U16(CIPHER), exts);
    TailLayout(m, 39 + |sid|, U16(CIPHER), exts);
    ExtBlockSize(pub, name);
    Num24Of(m, 1, |m| - 4);
    SniSize(name);
    ExtsAppend(SniExt(name), CertExts(pub));
    CertExtsLayout(pub);
    var at, s := 47 + |sid|, SniLen(name);
    assert m[at..] == exts && exts[s..] == EncExts(CertExts(pub));
    assert m[at..|m|] == exts && m[at..][s..] == m[at + s..];
    SubSlice(m, at + s, |m|, 21, 33);
    SubSlice(m, at + s, |m|, 43, 75);
    assert m[at + s..|m|] == EncExts(CertExts(pub));
  }

  // ----- the server's choice of scheme -----------------------------------------------------

  predicate Offers(m: bytes, h: Parsed, scheme: nat) {
    h.sigAlgs.Some? && h.sigAlgs.value.In(m) && scheme in Words(h.sigAlgs.value.Of(m))
  }

  /** `wn_ClientHello_HasSigAlg`, with its 16-bit counter. */
  method HasSigAlg(m: bytes, h: Parsed, scheme: nat) returns (found: bool)
    requires h.sigAlgs.Some? ==> h.sigAlgs.value.In(m) && h.sigAlgs.value.len < 0x1_0000
    ensures found == Offers(m, h, scheme)
  {
    found := false;
    if h.sigAlgs.Some? {
      var s := h.sigAlgs.value;
      ghost var ws := Words(s.Of(m));
      var i: word16 := 0;
      while i as int + 1 < s.len
        invariant i as int % 2 == 0 && i as int / 2 <= |ws|
        invariant found <==> exists j :: 0 <= j < i as int / 2 && ws[j] == scheme
        decreases s.len - i as int
      {
        var at := s.off + i as int;
        assert ws[i as int / 2] == Num16(m, at);
        if 0x100 * (m[at] as int) + m[at + 1] == scheme {
          found := true;
        }
        i := i + 2;
      }
    }
  }

  /** The client offers exactly the schemes it can check. */
  lemma OwnSchemes(scheme: nat)
    ensures scheme in Words(SCHEMES) <==> scheme in {0x0807, 0x0503, 0x0403, 0x0806, 0x0805, 0x0804}
  {
    var w := Words(SCHEMES);
    assert w == [0x0807, 0x0503, 0x0403, 0x0806, 0x0805, 0x0804];
  }
}
