/** The PSK client's ClientHello: its builder, and that the server's parser recovers it. */
module PskHello {
  import opened Bytes
  import opened Msg
  import opened ClientHelloSpec
  import opened HelloGrammar
  import opened HelloStructure


  const VERSIONS_BODY: bytes := U8(2) + U16(TLS13)
  const GROUPS_BODY: bytes := U16(2) + U16(GROUP)
  const SIG_ALGS_BODY: bytes := U16(4) + U16(0x0807) + U16(0x0403)
  const KEX_BODY: bytes := U8(1) + U8(1)

  function ShareBody(pub: bytes): (r: bytes)
    ensures |r| == 6 + |pub|
  {
    U16(4 + |pub|) + U16(GROUP) + U16(|pub|) + pub
  }

  // One identity with a zero ticket age, one binder.
  function PskOfferBody(identity: bytes, binder: bytes): bytes {
    EncPsk([Offer(identity, [0, 0, 0, 0])], [binder])
  }

  function PskExts(pub: bytes, identity: bytes, binder: bytes): seq<Ext> {
    [Ext(EXT_VERSIONS, VERSIONS_BODY), Ext(EXT_GROUPS, GROUPS_BODY), Ext(EXT_SIG_ALGS, SIG_ALGS_BODY),
     Ext(EXT_KEY_SHARE, ShareBody(pub)), Ext(EXT_KEX_MODES, KEX_BODY), Ext(EXT_PSK, PskOfferBody(identity, binder))]
  }

  /** The client's message. Length fields keep only their low octets, as the C code's do. */
  function PskHelloBytes(random: bytes, sid: bytes, pub: bytes, identity: bytes, binder: bytes): bytes {
    HelloBytes(random, sid, U16(CIPHER), EncExts(PskExts(pub, identity, binder)))
  }

  // ----- the builder -----------------------------------------------------------------------

  method PutVersions(w: Writer)
    requires w.Valid()
    modifies w, w.buf
    ensures w.Wrote(EncExt(Ext(EXT_VERSIONS, VERSIONS_BODY)))
  {
    w.PutU16(43);
    w.PutU16(3);
    w.PutU8(2);
    w.PutU16(0x0304);
    if !w.err {
      assert w.Contents() == old(w.Contents()) + (U16(43) + U16(3) + (U8(2) + U16(0x0304)));
    }
  }

  method PutGroups(w: Writer)
    requires w.Valid()
    modifies w, w.buf
    ensures w.Wrote(EncExt(Ext(EXT_GROUPS, GROUPS_BODY)))
  {
    w.PutU16(10);
    w.PutU16(4);
    w.PutU16(2);
    w.PutU16(GROUP);
    if !w.err {
      assert w.Contents() == old(w.Contents()) + (U16(10) + U16(4) + (U16(2) + U16(GROUP)));
    }
  }

  lemma SigAlgsExtIs(c: bytes)
    ensures c + U16(13) + U16(6) + U16(4) + U16(0x0807) + U16(0x0403) == c + EncExt(Ext(EXT_SIG_ALGS, SIG_ALGS_BODY))
  {}

  method PutSigAlgs(w: Writer)
    requires w.Valid()
    modifies w, w.buf
    ensures w.Wrote(EncExt(Ext(EXT_SIG_ALGS, SIG_ALGS_BODY)))
  {
    hide U16;
    w.PutU16(13);
    w.PutU16(6);
    w.PutU16(4);
    w.PutU16(0x0807);
    w.PutU16(0x0403);
    if !w.err {
      SigAlgsExtIs(old(w.Contents()));
    }
  }

  method PutKeyShare(w: Writer, pub: bytes)
    requires w.Valid() && |pub| <= 0xFFFF
    modifies w, w.buf
    ensures w.Wrote(EncExt(Ext(EXT_KEY_SHARE, ShareBody(pub))))
  {
    w.PutU16(51);
    w.PutU16(6 + |pub|);
    PutShareList(w, pub);
    if !w.err {
      Join(old(w.Contents()), U16(51) + U16(6 + |pub|), ShareBody(pub));
      Join(old(w.Contents()), U16(51), U16(6 + |pub|));
    }
  }

  method PutShareList(w: Writer, pub: bytes)
    requires w.Valid() && |pub| <= 0xFFFF
    modifies w, w.buf
    ensures w.Wrote(ShareBody(pub))
  {
    w.PutU16(4 + |pub|);
    w.PutU16(GROUP);
    w.PutU16(|pub|);
    w.PutBytes(pub);
    if !w.err {
      assert w.Contents() == old(w.Contents()) + (U16(4 + |pub|) + U16(GROUP) + U16(|pub|) + pub);
    }
  }

  method PutKexModes(w: Writer)
    requires w.Valid()
    modifies w, w.buf
    ensures w.Wrote(EncExt(Ext(EXT_KEX_MODES, KEX_BODY)))
  {
    w.PutU16(45);
    w.PutU16(2);
    w.PutU8(1);
    w.PutU8(1);
    if !w.err {
      assert w.Contents() == old(w.Contents()) + (U16(45) + U16(2) + (U8(1) + U8(1)));
    }
  }

  function OneOffer(identity: bytes): bytes { EncOffers([Offer(identity, [0, 0, 0, 0])]) }

  lemma OneOfferIs(identity: bytes)
    ensures OneOffer(identity) == U16(|identity|) + identity + U16(0) + U16(0)
  {
    var os := [Offer(identity, [0, 0, 0, 0])];
    assert os[1..] == [] && EncOffers([]) == [];
    assert EncOffers(os) == U16(|identity|) + identity + [0, 0, 0, 0] + [];
    assert U16(0) + U16(0) == [0, 0, 0, 0];
  }

  lemma OneBinderIs(binder: bytes)
    ensures EncBinders([binder]) == U8(|binder|) + binder
  {}

  lemma BodyIs(identity: bytes, binder: bytes)
    ensures PskOfferBody(identity, binder)
         == U16(|OneOffer(identity)|) + OneOffer(identity) + (U16(1 + |binder|) + (U8(|binder|) + binder))
  {
    OneBinderIs(binder);
  }

  method PutOffer(w: Writer, identity: bytes)
    requires w.Valid() && |identity| <= 0xFFFF
    modifies w, w.buf
    ensures w.Wrote(OneOffer(identity))
  {
    w.PutU16(|identity|);
    w.PutBytes(identity);
    w.PutU16(0);
    w.PutU16(0);
    OneOfferIs(identity);
    if !w.err {
      assert w.Contents() == old(w.Contents()) + (U16(|identity|) + identity + U16(0) + U16(0));
    }
  }

  method PutOffers(w: Writer, identity: bytes)
    requires w.Valid() && |identity| <= 0xFFFF
    modifies w, w.buf
    ensures w.Wrote(U16(|OneOffer(identity)|) + OneOffer(identity))
  {
    hide OneOffer;
    var idsLen := w.LenStart(2);
    PutOffer(w, identity);
    ghost var filled := w.Contents();
    w.LenEnd(idsLen, 2);
    if !w.err {
      PatchedPrefix(old(w.Contents()), Zeros(2), OneOffer(identity));
      BeWidths(|OneOffer(identity)|);
      assert filled == old(w.Contents()) + Zeros(2) + OneOffer(identity);
    }
  }

  /** The binder entry with a zero placeholder; the result is where the binder goes. */
  method PutBinderSlot(w: Writer) returns (binderOff: nat)
    requires w.Valid()
    modifies w, w.buf
    ensures w.Wrote(U16(33) + (U8(32) + Zeros(32)))
    ensures !w.err ==> binderOff + 32 == w.len
  {
    w.PutU16(33);
    w.PutU8(32);
    binderOff := w.len;
    PutZeros32(w);
    if !w.err {
      Join(old(w.Contents()) + U16(33), U8(32), Zeros(32));
      Join(old(w.Contents()), U16(33), U8(32) + Zeros(32));
    }
  }

  method PutZeros32(w: Writer)
    requires w.Valid()
    modifies w, w.buf
    ensures w.Wrote(Zeros(32))
  {
    var i := 0;
    while i < 32
      invariant 0 <= i <= 32 && w.Wrote(Zeros(i))
    {
      w.PutU8(0);
      i := i + 1;
    }
  }

  method PutPskBody(w: Writer, identity: bytes) returns (truncOff: nat, binderOff: nat)
    requires w.Valid() && |identity| <= 0xFFFF
    modifies w, w.buf
    ensures w.Wrote(PskOfferBody(identity, Zeros(32)))
    ensures !w.err ==> truncOff + 35 == w.len && binderOff + 32 == w.len
  {
    hide PskOfferBody, OneOffer;
    PutOffers(w, identity);
    truncOff := w.len;
    binderOff := PutBinderSlot(w);
    BodyIs(identity, Zeros(32));
    if !w.err {
      Join(old(w.Contents()), U16(|OneOffer(identity)|) + OneOffer(identity), U16(33) + (U8(32) + Zeros(32)));
    }
  }

  method PutPsk(w: Writer, identity: bytes) returns (truncOff: nat, binderOff: nat)
    requires w.Valid() && |identity| <= 0xFFFF
    modifies w, w.buf
    ensures w.Wrote(EncExt(Ext(EXT_PSK, PskOfferBody(identity, Zeros(32)))))
    ensures !w.err ==> truncOff + 35 == w.len && binderOff + 32 == w.len
  {
    hide PskOfferBody, U16, Be;
    ghost var body := PskOfferBody(identity, Zeros(32));
    w.PutU16(41);
    ghost var pre := w.Contents();
    var pskLen := w.LenStart(2);
    truncOff, binderOff := PutPskBody(w, identity);
    ghost var filled := w.Contents();
    w.LenEnd(pskLen, 2);
    if !w.err {
      PatchedPrefix(pre, Zeros(2), body);
      BeWidths(|body|);
      Join(old(w.Contents()), U16(41), U16(|body|) + body);
      Join(U16(41), U16(|body|), body);
    }
  }

  // The extensions before pre_shared_key.
  function FirstExts(pub: bytes): bytes {
    EncExt(Ext(EXT_VERSIONS, VERSIONS_BODY))
    + (EncExt(Ext(EXT_GROUPS, GROUPS_BODY)) + (EncExt(Ext(EXT_SIG_ALGS, SIG_ALGS_BODY))
    + (EncExt(Ext(EXT_KEY_SHARE, ShareBody(pub))) + EncExt(Ext(EXT_KEX_MODES, KEX_BODY)))))
  }

  lemma ExtsAre(pub: bytes, identity: bytes, binder: bytes)
    ensures EncExts(PskExts(pub, identity, binder))
         == FirstExts(pub) + EncExt(Ext(EXT_PSK, PskOfferBody(identity, binder)))
  {
    hide EncExt, PskOfferBody, ShareBody;
    var es := PskExts(pub, identity, binder);
    var e0, e1, e2, e3, e4, e5 := EncExt(es[0]), EncExt(es[1]), EncExt(es[2]), EncExt(es[3]), EncExt(es[4]),
        EncExt(es[5]);
    assert es[1..][0] == es[1] && es[1..][1..] == es[2..];
    assert es[2..][0] == es[2] && es[2..][1..] == es[3..];
    assert es[3..][0] == es[3] && es[3..][1..] == es[4..];
    assert es[4..][0] == es[4] && es[4..][1..] == es[5..];
    assert es[5..] == [es[5]] && EncExts([es[5]]) == e5 + EncExts([]);
    assert EncExts(es[4..]) == e4 + e5;
    assert EncExts(es[3..]) == e3 + (e4 + e5);
    assert EncExts(es[2..]) == e2 + (e3 + (e4 + e5));
    assert EncExts(es[1..]) == e1 + (e2 + (e3 + (e4 + e5)));
    assert EncExts(es) == e0 + (e1 + (e2 + (e3 + (e4 + e5))));
    assert e3 + (e4 + e5) == (e3 + e4) + e5;
    assert e2 + ((e3 + e4) + e5) == (e2 + (e3 + e4)) + e5;
    assert e1 + ((e2 + (e3 + e4)) + e5) == (e1 + (e2 + (e3 + e4))) + e5;
    assert e0 + ((e1 + (e2 + (e3 + e4))) + e5) == (e0 + (e1 + (e2 + (e3 + e4)))) + e5;
  }

  method PutFirstExts(w: Writer, pub: bytes)
    requires w.Valid() && |pub| <= 0xFFFF
    modifies w, w.buf
    ensures w.Wrote(FirstExts(pub))
  {
    hide EncExt;
    ghost var e0, e1, e2 := EncExt(Ext(EXT_VERSIONS, VERSIONS_BODY)), EncExt(Ext(EXT_GROUPS, GROUPS_BODY)),
        EncExt(Ext(EXT_SIG_ALGS, SIG_ALGS_BODY));
    ghost var e3, e4 := EncExt(Ext(EXT_KEY_SHARE, ShareBody(pub))), EncExt(Ext(EXT_KEX_MODES, KEX_BODY));
    PutVersions(w);
    PutGroups(w);
    PutSigAlgs(w);
    PutKeyShare(w, pub);
    PutKexModes(w);
    if !w.err {
      var c := old(w.Contents());
      Join(c + e0 + e1 + e2, e3, e4);
      Join(c + e0 + e1, e2, e3 + e4);
      Join(c + e0, e1, e2 + (e3 + e4));
      Join(c, e0, e1 + (e2 + (e3 + e4)));
    }
  }

  method PutHead(w: Writer, random: bytes, sid: bytes)
    requires w.Valid() && |random| == 32 && |sid| <= 32
    modifies w, w.buf
    ensures w.Wrote(HeadFields(random, sid, U16(CIPHER)))
  {
    hide U16;
    w.PutU16(LEGACY_VERSION);
    w.PutBytes(random);
    w.PutU8(|sid|);
    w.PutBytes(sid);
    ghost var mid := w.Contents();
    PutSuite(w);
    if !w.err {
      var c, v, t := old(w.Contents()), U16(LEGACY_VERSION), U16(2) + (U16(CIPHER) + [1, 0]);
      Join(c + v + random + U8(|sid|), sid, t);
      Join(c + v + random, U8(|sid|), sid + t);
      Join(c + v, random, U8(|sid|) + (sid + t));
      Join(c, v, random + (U8(|sid|) + (sid + t)));
    }
  }

  method PutSuite(w: Writer)
    requires w.Valid()
    modifies w, w.buf
    ensures w.Wrote(U16(2) + (U16(CIPHER) + [1, 0]))
  {
    w.PutU16(2);
    w.PutU16(CIPHER);
    w.PutU8(1);
    w.PutU8(0);
    if !w.err {
      assert w.Contents() == old(w.Contents()) + (U16(2) + (U16(CIPHER) + [1, 0]));
    }
  }

  // The extension block with its length.
  method PutExtBlock(w: Writer, pub: bytes, identity: bytes) returns (truncOff: nat, binderOff: nat)
    requires w.Valid() && |pub| <= 0xFFFF && |identity| <= 0xFFFF
    modifies w, w.buf
    ensures var exts := EncExts(PskExts(pub, identity, Zeros(32)));
      w.Wrote(U16(|exts|) + exts)
    ensures !w.err ==> truncOff + 35 == w.len && binderOff + 32 == w.len
  {
    hide EncExt, EncExts, FirstExts, PskOfferBody, PskExts, U16, Be, Patched;
    ghost var first := FirstExts(pub);
    ghost var last := EncExt(Ext(EXT_PSK, PskOfferBody(identity, Zeros(32))));
    ghost var pre := w.Contents();
    var extLen := w.LenStart(2);
    PutFirstExts(w, pub);
    truncOff, binderOff := PutPsk(w, identity);
    w.LenEnd(extLen, 2);
    ExtsAre(pub, identity, Zeros(32));
    if !w.err {
      Join(pre + Zeros(2), first, last);
      PatchedPrefix(pre, Zeros(2), first + last);
      BeWidths(|first + last|);
    }
  }

  method PutBody(w: Writer, random: bytes, sid: bytes, pub: bytes, identity: bytes)
    returns (truncOff: nat, binderOff: nat)
    requires w.Valid() && |random| == 32 && |sid| == 32 && |pub| <= 0xFFFF && |identity| <= 0xFFFF
    modifies w, w.buf
    ensures w.Wrote(HelloBody(random, sid, U16(CIPHER), EncExts(PskExts(pub, identity, Zeros(32)))))
    ensures !w.err ==> truncOff + 35 == w.len && binderOff + 32 == w.len
  {
    hide HeadFields, EncExts, HelloBody, PskExts, U16;
    ghost var head, exts := HeadFields(random, sid, U16(CIPHER)), EncExts(PskExts(pub, identity, Zeros(32)));
    PutHead(w, random, sid);
    truncOff, binderOff := PutExtBlock(w, pub, identity);
    BodyFromHead(random, sid, U16(CIPHER), exts);
    Join(old(w.Contents()), head, U16(|exts|) + exts);
  }

  lemma FirstOctet()
    ensures U8(1) == [HS_CLIENT_HELLO]
  {}

  /** Write the ClientHello with a zero binder; report where its hash stops and the binder goes. */
  method BuildPskHello(w: Writer, random: bytes, sid: bytes, pub: bytes, identity: bytes)
    returns (truncOff: nat, binderOff: nat)
    requires w.Valid() && |random| == 32 && |sid| == 32 && |pub| <= 0xFFFF && |identity| <= 0xFFFF
    modifies w, w.buf
    ensures w.Wrote(PskHelloBytes(random, sid, pub, identity, Zeros(32)))
    ensures !w.err ==> truncOff + 35 == w.len && binderOff + 32 == w.len
  {
    hide HelloBody, PskExts, U8, U16, U24, Be, EncExts;
    ghost var body := HelloBody(random, sid, U16(CIPHER), EncExts(PskExts(pub, identity, Zeros(32))));
    w.PutU8(1);
    ghost var pre := w.Contents();
    var hsLen := w.LenStart(3);
    truncOff, binderOff := PutBody(w, random, sid, pub, identity);
    w.LenEnd(hsLen, 3);
    if !w.err {
      PatchedPrefix(pre, Zeros(3), body);
      BeWidths(|body|);
      FirstOctet();
      Join(old(w.Contents()), U8(1), U24(|body|) + body);
    }
  }

  // ----- what the server reads -------------------------------------------------------------

  // Everything before the binders: it does not depend on the binder.
  function HashedPart(random: bytes, sid: bytes, pub: bytes, identity: bytes): (r: bytes)
    ensures |r| > 0
  {
    var n := |OneOffer(identity)|;
    var front := FirstExts(pub) + (U16(EXT_PSK) + U16(n + 37) + (U16(n) + OneOffer(identity)));
    HelloFront(random, sid, U16(CIPHER), |front| + 35, front)
  }

  /** The message is its hashed part, then the binders vector. */
  lemma HelloSplit(random: bytes, sid: bytes, pub: bytes, identity: bytes, binder: bytes)
    requires |binder| == 32
    ensures PskHelloBytes(random, sid, pub, identity, binder)
         == HashedPart(random, sid, pub, identity) + (U16(33) + (U8(32) + binder))
  {
    hide FirstExts, OneOffer, HelloFront, HelloBytes, PskExts, U16;
    var first, o := FirstExts(pub), OneOffer(identity);
    var b := U16(33) + (U8(32) + binder);
    ExtsAre(pub, identity, binder);
    BodyIs(identity, binder);
    var p := U16(EXT_PSK) + U16(|o| + 37);
    assert |PskOfferBody(identity, binder)| == |o| + 37;
    assert p + (U16(|o|) + o + b) == (p + (U16(|o|) + o)) + b;
    Join(first, p + (U16(|o|) + o), b);
    SplitTail(random, sid, U16(CIPHER), first + (p + (U16(|o|) + o)), b);
  }

  /**
   * Writing the binder into its slot after hashing gives the message with that binder, and leaves
   * the hashed octets as they were (RFC 8446 section 4.2.11.2).
   */
  lemma BinderPatch(random: bytes, sid: bytes, pub: bytes, identity: bytes, binder: bytes)
    requires |binder| == 32
    ensures var m0 := PskHelloBytes(random, sid, pub, identity, Zeros(32));
      var m := PskHelloBytes(random, sid, pub, identity, binder);
      && |m0| == |m| > 35
      && m == m0[..|m| - 32] + binder
      && m[..|m| - 35] == m0[..|m| - 35] == HashedPart(random, sid, pub, identity)
  {
    hide PskHelloBytes, HashedPart, U16;
    HelloSplit(random, sid, pub, identity, Zeros(32));
    HelloSplit(random, sid, pub, identity, binder);
    var h := HashedPart(random, sid, pub, identity);
    assert h + (U16(33) + (U8(32) + binder)) == h + U16(33) + U8(32) + binder;
    assert h + (U16(33) + (U8(32) + Zeros(32))) == h + U16(33) + U8(32) + Zeros(32);
  }

  lemma BodyLengths(pub: bytes, identity: bytes, binder: bytes)
    requires |pub| == 32 && |binder| == 32
    ensures |PskOfferBody(identity, binder)| == |identity| + 43
    ensures |EncExts(PskExts(pub, identity, binder))| == |identity| + 120
  {
    OneOfferIs(identity);
    BodyIs(identity, binder);
    ExtsAre(pub, identity, binder);
  }

  lemma OwnGroups()
    ensures GroupsBody(GROUPS_BODY) == Some(true) && VersionsBody(VERSIONS_BODY) == Some(true)
    ensures KexModesBody(KEX_BODY) == Some(true)
  {
    assert Words(GROUPS_BODY[2..])[0] == GROUP;
    assert Words(VERSIONS_BODY[1..])[0] == TLS13;
    assert KEX_BODY[1..][0] == 1;
  }

  lemma OwnShare(pub: bytes, at: nat)
    requires |pub| == 32
    ensures KeyShareBody(ShareBody(pub), at) == Some(Some(Slice(at + 6, 32)))
  {
    var b := ShareBody(pub);
    var e := b[2..];
    assert |e| == 36 && Num16(b, 0) == 36 && Num16(e, 0) == GROUP && Num16(e, 2) == 32;
    assert e[36..] == [];
    assert KeyShareEntries(e, 36, at + 2, None) == KeyShareEntries([], 0, at + 38, Some(Slice(at + 6, 32)));
  }

  lemma OwnPsk(identity: bytes, binder: bytes, at: nat)
    requires 0 < |identity| < 0xFFFA && |binder| == 32
    ensures PskBody(PskOfferBody(identity, binder), at)
         == Some(Psk(Slice(at + 4, |identity|), Slice(at + |identity| + 11, 32), at + |identity| + 8))
  {
    hide PskBody, EncPsk, U16;
    OneOfferIs(identity);
    OneBinderIs(binder);
    PskRead([Offer(identity, [0, 0, 0, 0])], [binder], at);
  }

  lemma EmptyIdentityRefused(binder: bytes, at: nat)
    requires |binder| == 32
    ensures PskBody(PskOfferBody([], binder), at).None?
  {}

  // What the five extensions before pre_shared_key teach, and where the last one starts.
  const AFTER_FIRST: Known :=
    Known([EXT_VERSIONS, EXT_GROUPS, EXT_SIG_ALGS, EXT_KEY_SHARE, EXT_KEX_MODES], true, true, true, true,
          Some(Slice(114, 32)), Some(Slice(100, 4)), None)

  lemma LearnStep(es: seq<Ext>, i: nat, at: nat, k: Known, k1: Known)
    requires i < |es| && Learn(k, es[i].etype, es[i].body, at + 4) == Some(k1)
    ensures LearnAll(es[i..], at, k) == LearnAll(es[i + 1..], at + 4 + |es[i].body|, k1)
  {}

  lemma FirstTwo(es: seq<Ext>)
    requires |es| == 6 && es[0] == Ext(EXT_VERSIONS, VERSIONS_BODY) && es[1] == Ext(EXT_GROUPS, GROUPS_BODY)
    ensures LearnAll(es, 79, NOTHING) == LearnAll(es[2..], 94, Known([43, 10], true, false, true, true, None, None, None))
  {
    hide LearnAll, GroupsBody, VersionsBody, Words;
    OwnGroups();
    var k1 := NOTHING.(seen := [43], tls13 := true);
    var k2 := k1.(seen := [43, 10], haveGroups := true, groupOffered := true);
    assert [] + [43] == k1.seen && k1.seen + [10] == k2.seen;
    assert es[0..] == es;
    LearnStep(es, 0, 79, NOTHING, k1);
    LearnStep(es, 1, 86, k1, k2);
  }

  lemma NextThree(es: seq<Ext>, pub: bytes)
    requires |es| == 6 && |pub| == 32 && es[2] == Ext(EXT_SIG_ALGS, SIG_ALGS_BODY)
    requires es[3] == Ext(EXT_KEY_SHARE, ShareBody(pub)) && es[4] == Ext(EXT_KEX_MODES, KEX_BODY)
    ensures LearnAll(es[2..], 94, Known([43, 10], true, false, true, true, None, None, None))
         == LearnAll(es[5..], 152, AFTER_FIRST)
  {
    hide LearnAll, KexModesBody, KeyShareBody, ShareBody;
    OwnGroups();
    OwnShare(pub, 108);
    var b := SIG_ALGS_BODY;
    assert Num16(b, 0) == 4 && |b| == 6 && |ShareBody(pub)| == 38;
    var k2 := Known([43, 10], true, false, true, true, None, None, None);
    var k3 := k2.(seen := [43, 10, 13], sigAlgs := Some(Slice(100, 4)));
    var k4 := k3.(seen := [43, 10, 13, 51], keyShare := Some(Slice(114, 32)));
    assert k2.seen + [13] == k3.seen && k3.seen + [51] == k4.seen && k4.seen + [45] == AFTER_FIRST.seen;
    LearnStep(es, 2, 94, k2, k3);
    LearnStep(es, 3, 104, k3, k4);
    LearnStep(es, 4, 146, k4, AFTER_FIRST);
  }

  lemma FirstLearnt(pub: bytes, identity: bytes, binder: bytes)
    requires |pub| == 32
    ensures var es := PskExts(pub, identity, binder);
      LearnAll(es, 79, NOTHING) == LearnAll([es[5]], 152, AFTER_FIRST)
  {
    hide LearnAll, PskOfferBody, ShareBody;
    var es := PskExts(pub, identity, binder);
    FirstTwo(es);
    NextThree(es, pub);
    assert es[5..] == [es[5]];
  }

  /** The server's verdict, read off the identity alone. */
  function PskVerdict(identity: bytes): Result {
    if 0 < |identity| < 65416 then
      Accept(Parsed(Slice(39, 32), Some(Slice(114, 32)), Some(Slice(100, 4)),
                    Some(Psk(Slice(160, |identity|), Slice(|identity| + 167, 32), |identity| + 164))))
    else Reject(DecodeErr)
  }

  /**
   * PSK ClientHello round trip: the server accepts the client's message exactly when the identity
   * is not empty and leaves the extension block short of 2^16 octets (the builder does not check
   * either), and then it recovers every field.
   */
  lemma PskHelloRoundTrip(random: bytes, sid: bytes, pub: bytes, identity: bytes, binder: bytes)
    requires |random| == 32 && |sid| == 32 && |pub| == 32 && |binder| == 32 && |identity| <= 0xFFFF
    ensures ParseHello(PskHelloBytes(random, sid, pub, identity, binder)) == PskVerdict(identity)
  {
    hide LearnAll, HelloBytes, PskOfferBody, EncExts, ParseHello, Acceptable;
    var es := PskExts(pub, identity, binder);
    BodyLengths(pub, identity, binder);
    assert U16(CIPHER) == [0x13, 0x01];
    if |identity| < 65416 {
      var h := Hello(random, sid, U16(CIPHER), es);
      ParseOfEncode(h);
      VerdictOfPsk(h, pub, identity, binder);
    } else {
      OverflowRefused(random, sid, EncExts(es));
    }
  }

  lemma OverflowRefused(random: bytes, sid: bytes, exts: bytes)
    requires |random| == 32 && |sid| == 32 && 0x1_0000 <= |exts| < 0x80_0000
    ensures ParseHello(HelloBytes(random, sid, U16(CIPHER), exts)) == Reject(DecodeErr)
  {
    hide HelloBytes, PreludeOf, Extensions;
    PreludeOfBytes(random, sid, U16(CIPHER), exts);
  }

  lemma VerdictOfPsk(h: Hello, pub: bytes, identity: bytes, binder: bytes)
    requires |h.sid| == 32 && |pub| == 32 && |binder| == 32 && |identity| < 65416
    requires h.suites == U16(CIPHER) && h.exts == PskExts(pub, identity, binder)
    ensures Verdict(h) == PskVerdict(identity)
  {
    hide PskBody, PskOfferBody, KeyShareBody, SigAlgsBody, GroupsBody, VersionsBody, KexModesBody;
    FirstLearnt(pub, identity, binder);
    assert Words(U16(CIPHER))[0] == CIPHER;
    var e := h.exts[5];
    if identity == [] {
      EmptyIdentityRefused(binder, 156);
      assert LearnBody(AFTER_FIRST, e.etype, e.body, 156).None?;
      assert Learn(AFTER_FIRST, e.etype, e.body, 156).None?;
    } else {
      OwnPsk(identity, binder, 156);
      var k := Learn(AFTER_FIRST, e.etype, e.body, 156);
      assert k.Some? && LearnAll([e][1..], 156 + |e.body|, k.value) == k;
    }
    assert LearnAll([e], 152, AFTER_FIRST) == Learn(AFTER_FIRST, e.etype, e.body, 156);
  }

  lemma FirstExtsLayout(pub: bytes)
    requires |pub| == 32
    ensures |FirstExts(pub)| == 73 && FirstExts(pub)[35..67] == pub
  {}

  lemma PskExtLayout(identity: bytes, binder: bytes)
    requires |binder| == 32
    ensures var e := EncExt(Ext(EXT_PSK, PskOfferBody(identity, binder)));
      |e| == |identity| + 47 && e[8..8 + |identity|] == identity
  {
    hide U16;
    OneOfferIs(identity);
    BodyIs(identity, binder);
    var o, r := OneOffer(identity), U16(33) + (U8(32) + binder);
    var e := EncExt(Ext(EXT_PSK, PskOfferBody(identity, binder)));
    var pre := U16(EXT_PSK) + U16(|PskOfferBody(identity, binder)|) + U16(|o|) + U16(|identity|);
    assert e == pre + (identity + (U16(0) + U16(0) + r));
  }

  /** The slices the server keeps hold the client's session id, share, identity and binder. */
  lemma PskHelloFields(random: bytes, sid: bytes, pub: bytes, identity: bytes, binder: bytes)
    requires |random| == 32 && |sid| == 32 && |pub| == 32 && |binder| == 32 && 0 < |identity| < 65416
    ensures var m := PskHelloBytes(random, sid, pub, identity, binder);
      && |m| == |identity| + 199
      && m[39..71] == sid && m[114..146] == pub && m[160..160 + |identity|] == identity
      && m[|identity| + 167..] == binder && m[..|identity| + 164] == HashedPart(random, sid, pub, identity)
  {
    hide HelloBytes, PskOfferBody, EncExts, EncExt, FirstExts, HashedPart;
    var m, n := PskHelloBytes(random, sid, pub, identity, binder), |identity|;
    var exts, e := EncExts(PskExts(pub, identity, binder)), EncExt(Ext(EXT_PSK, PskOfferBody(identity, binder)));
    HelloLayout(random, sid, U16(CIPHER), exts);
    BodyLengths(pub, identity, binder);
    PreludeOfBytes(random, sid, U16(CIPHER), exts);
    BinderPatch(random, sid, pub, identity, binder);
    ExtsAre(pub, identity, binder);
    FirstExtsLayout(pub);
    PskExtLayout(identity, binder);
    ExtsInside(m, FirstExts(pub), e, pub, identity);
  }

  lemma ExtsInside(m: bytes, first: bytes, e: bytes, pub: bytes, identity: bytes)
    requires |m| >= 79 && m[79..] == first + e && |first| == 73 && |e| >= 8 + |identity|
    requires first[35..67] == pub && e[8..8 + |identity|] == identity
    ensures |m| == 152 + |e| && m[114..146] == pub && m[160..160 + |identity|] == identity
  {}
}
