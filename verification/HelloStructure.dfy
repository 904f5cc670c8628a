/** What the server may rely on once a ClientHello has been accepted. */
module HelloStructure {
  import opened Bytes
  import opened ClientHelloSpec
  import opened HelloGrammar

  // ----- the pre_shared_key extension ------------------------------------------------------

  datatype Offer = Offer(identity: bytes, age: bytes)

  function EncOffers(os: seq<Offer>): bytes {
    if os == [] then [] else U16(|os[0].identity|) + os[0].identity + os[0].age + EncOffers(os[1..])
  }

  function EncBinders(bs: seq<bytes>): bytes {
    if bs == [] then [] else U8(|bs[0]|) + bs[0] + EncBinders(bs[1..])
  }

  ghost predicate ProperOffers(os: seq<Offer>) {
    forall i :: 0 <= i < |os| ==> 0 < |os[i].identity| < 0x1_0000 && |os[i].age| == 4
  }

  ghost predicate ProperBinders(bs: seq<bytes>) {
    forall i :: 0 <= i < |bs| ==> |bs[i]| < 256
  }

  function EncPsk(os: seq<Offer>, bs: seq<bytes>): bytes {
    U16(|EncOffers(os)|) + EncOffers(os) + (U16(|EncBinders(bs)|) + EncBinders(bs))
  }

  function Names(os: seq<Offer>): (r: seq<bytes>)
    ensures |r| == |os|
  {
    if os == [] then [] else [os[0].identity] + Names(os[1..])
  }

  lemma OfferLayout(o: Offer, rest: bytes)
    requires 0 < |o.identity| < 0x1_0000 && |o.age| == 4
    ensures var b, n := U16(|o.identity|) + o.identity + o.age + rest, |o.identity|;
      |b| >= 6 + n && Num16(b, 0) == n && b[2..2 + n] == o.identity && b[6 + n..] == rest
  {}

  lemma {:induction false} OffersRead(os: seq<Offer>)
    requires ProperOffers(os)
    ensures Identities(EncOffers(os)) == Some(Names(os))
    decreases |os|
  {
    hide Num16, U16;
    if os != [] {
      OfferLayout(os[0], EncOffers(os[1..]));
      OffersRead(os[1..]);
    }
  }

  lemma OfferAssembled(b: bytes)
    requires |b| >= 2 && |b| >= 6 + Num16(b, 0)
    ensures var n := Num16(b, 0); b == U16(n) + b[2..2 + n] + b[2 + n..6 + n] + b[6 + n..]
  {
    hide Num16, U16;
    U16Of(b, 0);
  }

  lemma OfferFirst(o: Offer, rest: seq<Offer>)
    requires ProperOffers(rest) && 0 < |o.identity| < 0x1_0000 && |o.age| == 4
    ensures ProperOffers([o] + rest) && Names([o] + rest) == [o.identity] + Names(rest)
    ensures EncOffers([o] + rest) == U16(|o.identity|) + o.identity + o.age + EncOffers(rest)
  {}

  lemma {:induction false} OffersOf(b: bytes) returns (os: seq<Offer>)
    requires Identities(b).Some?
    ensures ProperOffers(os) && EncOffers(os) == b && Names(os) == Identities(b).value
    decreases |b|
  {
    hide Num16, U16;
    if b == [] {
      os := [];
    } else {
      var n := Num16(b, 0);
      var rest := OffersOf(b[6 + n..]);
      os := [Offer(b[2..2 + n], b[2 + n..6 + n])] + rest;
      OfferAssembled(b);
      OfferFirst(Offer(b[2..2 + n], b[2 + n..6 + n]), rest);
    }
  }

  lemma {:induction false} BindersRead(bs: seq<bytes>)
    requires ProperBinders(bs)
    ensures Binders(EncBinders(bs)) == Some(bs)
    decreases |bs|
  {
    if bs != [] {
      var x, rest := bs[0], EncBinders(bs[1..]);
      var b := U8(|x|) + x + rest;
      assert b[0] as int == |x| && b[1..1 + |x|] == x && b[1 + |x|..] == rest;
      BindersRead(bs[1..]);
      assert bs == [x] + bs[1..];
    }
  }

  lemma BinderFirst(x: bytes, rest: seq<bytes>)
    requires ProperBinders(rest) && |x| < 256
    ensures ProperBinders([x] + rest) && EncBinders([x] + rest) == U8(|x|) + x + EncBinders(rest)
  {}

  lemma {:induction false} BindersOf(b: bytes)
    requires Binders(b).Some?
    ensures ProperBinders(Binders(b).value) && EncBinders(Binders(b).value) == b
    decreases |b|
  {
    hide EncBinders, ProperBinders;
    if b != [] {
      var n := b[0] as int;
      BindersOf(b[1 + n..]);
      BinderFirst(b[1..1 + n], Binders(b[1 + n..]).value);
      assert U8(n) == [b[0]];
      assert b == [b[0]] + b[1..1 + n] + b[1 + n..];
    } else {
      assert EncBinders([]) == [] && ProperBinders([]) by { NoBinders(); }
    }
  }

  lemma NoBinders()
    ensures EncBinders([]) == [] && ProperBinders([])
  {}

  /** The server's view of a pre_shared_key body whose first octet is at offset `at`. */
  lemma PskRead(os: seq<Offer>, bs: seq<bytes>, at: nat)
    requires ProperOffers(os) && ProperBinders(bs) && |os| == |bs| > 0
    requires |EncOffers(os)| < 0x1_0000 && |EncBinders(bs)| < 0x1_0000
    ensures var bnd := 2 + |EncOffers(os)|;
      PskBody(EncPsk(os, bs), at) == Some(Psk(Slice(at + 4, |os[0].identity|), Slice(at + bnd + 3, |bs[0]|), at + bnd))
  {
    hide Identities, Binders, EncOffers, EncBinders, ProperOffers, ProperBinders, Num16, U16;
    var b, i, r := EncPsk(os, bs), EncOffers(os), EncBinders(bs);
    var bnd := 2 + |i|;
    OffersRead(os);
    BindersRead(bs);
    assert b[0..2] == U16(|i|) && b[2..bnd] == i;
    assert b[bnd..bnd + 2] == U16(|r|) && b[bnd + 2..] == r;
    Num16Of(b, 0, |i|);
    Num16Of(b, bnd, |r|);
  }

  /** A readable body is the encoding of as many binders as identities, and of at least one. */
  lemma PskIs(b: bytes, at: nat) returns (os: seq<Offer>, bs: seq<bytes>)
    requires PskBody(b, at).Some?
    ensures b == EncPsk(os, bs) && ProperOffers(os) && ProperBinders(bs) && |os| == |bs| > 0
    ensures |EncOffers(os)| < 0x1_0000 && |EncBinders(bs)| < 0x1_0000
  {
    hide Identities, Binders, Num16, U16;
    var bnd := 2 + Num16(b, 0);
    os := OffersOf(b[2..bnd]);
    bs := Binders(b[bnd + 2..]).value;
    BindersOf(b[bnd + 2..]);
    U16Of(b, 0);
    U16Of(b, bnd);
    assert b == b[0..2] + b[2..bnd] + (b[bnd..bnd + 2] + b[bnd + 2..]);
  }

  // ----- the extension list ----------------------------------------------------------------

  /** The body is well formed for its type and is consumed to its last octet. */
  predicate BodyOk(e: Ext) {
    LearnBody(NOTHING, e.etype, e.body, 0).Some?
  }

  ghost predicate Distinct(ts: seq<nat>) {
    forall i, j :: 0 <= i < j < |ts| ==> ts[i] != ts[j]
  }

  function Types(es: seq<Ext>): seq<nat> {
    seq(|es|, i requires 0 <= i < |es| => es[i].etype)
  }

  // Every slice learnt so far ends at or before `lim`.
  ghost predicate Within(k: Known, lim: nat) {
    && (k.keyShare.Some? ==> k.keyShare.value.off + k.keyShare.value.len <= lim)
    && (k.sigAlgs.Some? ==> k.sigAlgs.value.off + k.sigAlgs.value.len <= lim && k.sigAlgs.value.len < 0x1_0000)
    && (k.psk.Some? ==> k.psk.value.identity.off + k.psk.value.identity.len <= lim
                        && k.psk.value.binder.off + k.psk.value.binder.len <= lim)
  }

  lemma {:induction false} KeyShareWithin(b: bytes, limit: int, at: nat, cur: Option<Slice>, end: nat)
    requires at + |b| == end && (cur.Some? ==> cur.value.off + cur.value.len <= end)
    requires KeyShareEntries(b, limit, at, cur).Some?
    ensures var v := KeyShareEntries(b, limit, at, cur).value; v.Some? ==> v.value.off + v.value.len <= end
    decreases |b|
  {
    if limit > 0 {
      var n := Num16(b, 2);
      var next := if Num16(b, 0) == GROUP then Some(Slice(at + 4, n)) else cur;
      KeyShareWithin(b[4 + n..], limit - 4 - n, at + 4 + n, next, end);
    }
  }

  lemma PskBodyWithin(b: bytes, at: nat)
    requires PskBody(b, at).Some?
    ensures var psk := PskBody(b, at).value;
      psk.identity.off + psk.identity.len <= at + |b| && psk.binder.off + psk.binder.len <= at + |b|
  {}

  lemma BodyWithin(k: Known, e: Ext, at: nat)
    requires Within(k, at) && LearnBody(k, e.etype, e.body, at).Some?
    ensures Within(LearnBody(k, e.etype, e.body, at).value, at + |e.body|)
  {
    hide PskBody, GroupsBody, VersionsBody, KexModesBody, KeyShareEntries;
    if e.etype == EXT_KEY_SHARE {
      KeyShareWithin(e.body[2..], Num16(e.body, 0), at + 2, None, at + |e.body|);
    } else if e.etype == EXT_PSK {
      PskBodyWithin(e.body, at);
    }
  }

  lemma {:induction false} KeyShareShift(b: bytes, limit: int, at: nat, cur: Option<Slice>, at': nat, cur': Option<Slice>)
    ensures KeyShareEntries(b, limit, at, cur).Some? == KeyShareEntries(b, limit, at', cur').Some?
    decreases |b|
  {
    if limit > 0 && |b| >= 4 && |b| >= 4 + Num16(b, 2) {
      var n := Num16(b, 2);
      KeyShareShift(b[4 + n..], limit - 4 - n, at + 4 + n, if Num16(b, 0) == GROUP then Some(Slice(at + 4, n)) else cur,
                    at' + 4 + n, if Num16(b, 0) == GROUP then Some(Slice(at' + 4, n)) else cur');
    }
  }

  lemma BodyOkAnywhere(k: Known, e: Ext, at: nat)
    ensures BodyOk(e) == LearnBody(k, e.etype, e.body, at).Some?
  {
    if e.etype == EXT_KEY_SHARE && |e.body| >= 2 {
      KeyShareShift(e.body[2..], Num16(e.body, 0), at + 2, None, 2, None);
    }
  }

  /** What learning a whole list establishes about it. */
  ghost predicate Learnt(es: seq<Ext>, at: nat, k: Known, k': Known) {
    && k'.seen == k.seen + Types(es)
    && (Distinct(k.seen) ==> Distinct(k'.seen))
    && (|k.seen| <= MAX_EXTS ==> |k'.seen| <= MAX_EXTS)
    && (forall i :: 0 <= i < |es| ==> BodyOk(es[i]))
    && (Within(k, at) ==> Within(k', at + |EncExts(es)|))
    && (k.psk.Some? ==> es == [] && k'.psk == k.psk)
    && (k.psk.None? ==>
         if k'.psk.None? then EXT_PSK !in Types(es)
         else es != [] && EXT_PSK !in Types(es[..|es| - 1]) && es[|es| - 1].etype == EXT_PSK
              && |es[|es| - 1].body| <= at + |EncExts(es)|
              && PskBody(es[|es| - 1].body, at + |EncExts(es)| - |es[|es| - 1].body|) == k'.psk)
  }

  lemma LearnOneMore(e: Ext, rest: seq<Ext>, at: nat, k: Known, k1: Known, k': Known)
    requires Learn(k, e.etype, e.body, at + 4) == Some(k1)
    requires Learnt(rest, at + 4 + |e.body|, k1, k')
    ensures Learnt([e] + rest, at, k, k')
  {
    hide LearnBody, BodyOk, PskBody, EncExt;
    var es := [e] + rest;
    assert es[1..] == rest && EncExts(es) == EncExt(e) + EncExts(rest);
    ExtLength(e);
    assert Types(es) == [e.etype] + Types(rest);
    assert k.seen + [e.etype] + Types(rest) == k.seen + ([e.etype] + Types(rest));
    BodyOkAnywhere(k, e, at + 4);
    LearnWithin(k, e, at);
    LearnPsk(k, e, at);
    if rest != [] {
      assert es[..|es| - 1] == [e] + rest[..|rest| - 1];
      assert Types(es[..|es| - 1]) == [e.etype] + Types(rest[..|rest| - 1]);
    } else {
      assert es[..0] == [] && Types([]) == [];
    }
  }

  lemma ExtLength(e: Ext)
    ensures |EncExt(e)| == 4 + |e.body|
  {}

  lemma LearnWithin(k: Known, e: Ext, at: nat)
    requires Learn(k, e.etype, e.body, at + 4).Some?
    ensures Within(k, at) ==> Within(Learn(k, e.etype, e.body, at + 4).value, at + 4 + |e.body|)
  {
    hide LearnBody;
    if Within(k, at) {
      BodyWithin(k, e, at + 4);
    }
  }

  lemma LearnPsk(k: Known, e: Ext, at: nat)
    requires Learn(k, e.etype, e.body, at + 4).Some?
    ensures var k1 := Learn(k, e.etype, e.body, at + 4).value;
      && k.psk.None? && e.etype !in k.seen && |k.seen| < MAX_EXTS && k1.seen == k.seen + [e.etype]
      && (k1.psk.Some? <==> e.etype == EXT_PSK)
      && (k1.psk.Some? ==> PskBody(e.body, at + 4) == k1.psk)
  {}

  lemma {:induction false} LearnAllFacts(es: seq<Ext>, at: nat, k: Known)
    requires LearnAll(es, at, k).Some?
    ensures Learnt(es, at, k, LearnAll(es, at, k).value)
    decreases |es|
  {
    hide Learn, Learnt, BodyOk;
    if es == [] {
      LearnNone(at, k);
    } else {
      var e := es[0];
      var k1 := Learn(k, e.etype, e.body, at + 4).value;
      LearnAllFacts(es[1..], at + 4 + |e.body|, k1);
      LearnOneMore(e, es[1..], at, k, k1, LearnAll(es, at, k).value);
      assert [e] + es[1..] == es;
    }
  }

  lemma LearnNone(at: nat, k: Known)
    ensures Learnt([], at, k, k)
  {}

  /**
   * Accepted-ClientHello structure: the message is the encoding of a hello whose extension types
   * are pairwise distinct and at most 40, whose bodies are each consumed exactly, where
   * pre_shared_key can only be last and carries one binder per identity, where every returned
   * slice lies in the message, and where the binders, with their length, fill the message from the
   * transcript cut to the end.
   */
  lemma AcceptedStructure(m: bytes) returns (h: Hello)
    requires ParseHello(m).Accept?
    ensures h.WellFormed() && h.Encode() == m
    ensures Distinct(Types(h.exts)) && |h.exts| <= MAX_EXTS
    ensures forall i :: 0 <= i < |h.exts| ==> BodyOk(h.exts[i])
    ensures var p := ParseHello(m).hello;
      && p.sid.In(m) && p.sid.Of(m) == h.sid
      && (p.keyShare.Some? ==> p.keyShare.value.In(m) && p.keyShare.value.len == PUB_SZ)
      && (p.sigAlgs.Some? ==> p.sigAlgs.value.In(m) && p.sigAlgs.value.len < 0x1_0000)
      && (p.psk.None? ==> EXT_PSK !in Types(h.exts))
      && (p.psk.Some? ==> PskAtEnd(m, h, p.psk.value))
  {
    hide ParseHello, Learn, BodyOk, EncExt, HelloBytes, U24, Num16, PskAtEnd;
    h := AcceptedIsEncoding(m);
    var k := LearnAll(h.exts, h.ExtAt(), NOTHING).value;
    LearnAllFacts(h.exts, h.ExtAt(), NOTHING);
    assert [] + Types(h.exts) == Types(h.exts);
    HelloLayout(h.random, h.sid, h.suites, EncExts(h.exts));
    if k.psk.Some? {
      PskEndsMessage(m, h, k.psk.value);
    }
  }

  /** The pre_shared_key extension closes the message; the cut is where its binders begin. */
  ghost predicate PskAtEnd(m: bytes, h: Hello, psk: Psk) {
    && h.exts != [] && h.exts[|h.exts| - 1].etype == EXT_PSK
    && EXT_PSK !in Types(h.exts[..|h.exts| - 1])
    && psk.identity.In(m) && psk.identity.len > 0 && psk.binder.In(m) && psk.binder.len == 32
    && psk.truncLen + 2 <= |m| && psk.truncLen + 2 + Num16(m, psk.truncLen) == |m|
    && psk.identity.off + psk.identity.len < psk.truncLen < psk.binder.off
    && exists os: seq<Offer>, bs: seq<bytes> :: |os| == |bs| > 0 && ProperOffers(os) && ProperBinders(bs)
                        && h.exts[|h.exts| - 1].body == EncPsk(os, bs)
                        && psk.identity.Of(m) == os[0].identity && psk.binder.Of(m) == bs[0]
                        && m[psk.truncLen..] == U16(|EncBinders(bs)|) + EncBinders(bs)
  }

  lemma SuffixOfSum(a: bytes, b: bytes, n: nat)
    requires n <= |b|
    ensures (a + b)[|a + b| - n..] == b[|b| - n..]
  {}

  lemma {:induction false} LastBodyEndsEncoding(es: seq<Ext>)
    requires es != []
    ensures var b := es[|es| - 1].body; |b| <= |EncExts(es)| && EncExts(es)[|EncExts(es)| - |b|..] == b
    decreases |es|
  {
    hide EncExt, U16;
    var e, b, inner := es[0], es[|es| - 1].body, EncExts(es[1..]);
    ExtLength(e);
    assert EncExts(es) == EncExt(e) + inner;
    if |es| == 1 {
      assert EncExts(es) == EncExt(e);
      assert EncExt(e) == U16(e.etype) + U16(|b|) + b by { ExtIs(e); }
      SuffixOfSum(U16(e.etype) + U16(|b|), b, |b|);
    } else {
      assert es[1..][|es| - 2] == es[|es| - 1];
      LastBodyEndsEncoding(es[1..]);
      SuffixOfSum(EncExt(e), inner, |b|);
    }
  }

  lemma ExtIs(e: Ext)
    ensures EncExt(e) == U16(e.etype) + U16(|e.body|) + e.body
  {}

  lemma PskEndsMessage(m: bytes, h: Hello, psk: Psk)
    requires h.WellFormed() && h.Encode() == m && h.exts != [] && h.exts[|h.exts| - 1].etype == EXT_PSK
    requires EXT_PSK !in Types(h.exts[..|h.exts| - 1]) && psk.binder.len == 32
    requires |h.exts[|h.exts| - 1].body| <= |m|
    requires PskBody(h.exts[|h.exts| - 1].body, |m| - |h.exts[|h.exts| - 1].body|) == Some(psk)
    ensures PskAtEnd(m, h, psk)
  {
    hide PskBody, HelloBytes, Num16, U16, U8, EncExts, EncOffers, EncBinders, Types;
    var b := h.exts[|h.exts| - 1].body;
    LastBodyEndsEncoding(h.exts);
    PreludeOfBytes(h.random, h.sid, h.suites, EncExts(h.exts));
    var at := |m| - |b|;
    SubSlice(m, h.ExtAt(), |m|, |EncExts(h.exts)| - |b|, |EncExts(h.exts)|);
    assert m[h.ExtAt()..|m|] == EncExts(h.exts);
    assert m[at..] == b;
    var os, bs := PskIs(b, at);
    PskRead(os, bs, at);
    PskSlices(m, at, os, bs);
  }

  // The first identity, when the identities fill m[p .. end).
  lemma FirstOfferSlice(m: bytes, p: nat, end: nat, os: seq<Offer>)
    requires os != [] && p <= end <= |m| && m[p..end] == EncOffers(os) && ProperOffers(os)
    ensures var n := |os[0].identity|; p + 2 + n < end && m[p + 2..p + 2 + n] == os[0].identity
  {
    hide U16, ProperOffers;
    var o := os[0];
    assert |o.age| == 4 by { FirstIsProper(os); }
    var i, n := EncOffers(os), |o.identity|;
    var tail := o.age + EncOffers(os[1..]);
    assert i == U16(n) + o.identity + o.age + EncOffers(os[1..]);
    assert i[2..2 + n] == o.identity;
    SubSlice(m, p, end, 2, 2 + n);
  }

  lemma FirstIsProper(os: seq<Offer>)
    requires os != [] && ProperOffers(os)
    ensures |os[0].age| == 4
  {}

  lemma FirstBinderSlice(m: bytes, p: nat, bs: seq<bytes>)
    requires bs != [] && p <= |m| && m[p..] == EncBinders(bs)
    ensures p + 1 + |bs[0]| <= |m| && m[p + 1..p + 1 + |bs[0]|] == bs[0]
  {}

  lemma PskSlices(m: bytes, at: nat, os: seq<Offer>, bs: seq<bytes>)
    requires ProperOffers(os) && ProperBinders(bs) && |os| == |bs| > 0
    requires |EncOffers(os)| < 0x1_0000 && |EncBinders(bs)| < 0x1_0000
    requires at <= |m| && m[at..] == EncPsk(os, bs)
    ensures var cut := at + 2 + |EncOffers(os)|;
      && cut + 3 + |bs[0]| <= |m| && at + 4 + |os[0].identity| < cut
      && m[at + 4..at + 4 + |os[0].identity|] == os[0].identity
      && m[cut + 3..cut + 3 + |bs[0]|] == bs[0]
      && m[cut..] == U16(|EncBinders(bs)|) + EncBinders(bs)
      && Num16(m, cut) == |EncBinders(bs)| && cut + 2 + |EncBinders(bs)| == |m|
  {
    hide Num16, U16, EncOffers, EncBinders, ProperOffers, ProperBinders;
    var i, r := EncOffers(os), EncBinders(bs);
    var cut := at + 2 + |i|;
    assert m[at + 2..] == m[at..][2..] == i + (U16(|r|) + r);
    assert m[cut..] == m[at + 2..][|i|..] == U16(|r|) + r;
    assert m[at + 2..cut] == m[at + 2..][..|i|] == i;
    FirstOfferSlice(m, at + 2, cut, os);
    assert m[cut + 2..] == m[cut..][2..] == r;
    FirstBinderSlice(m, cut + 2, bs);
    assert m[cut..cut + 2] == m[cut..][..2];
    Num16Of(m, cut, |r|);
  }
}
