/**
 * Exactly which messages the client decodes as a ServerHello and what it takes from them, and exactly
 * which of these make it go on (RFC 8446 section 4.1.3).
 */
module ServerHelloLanguage {
  import opened Bytes
  import opened Crypto
  import opened Transport
  import opened Record
  import opened Handshake
  import opened HandshakeKeys
  import opened ServerHello
  import opened HelloGrammar
  import opened WireFormat
  import opened ClientStart

  // ----- the extension block ---------------------------------------------------------------

  /** A version, a selected identity, or a share that fills its body; nothing else may stand in a ServerHello. */
  predicate Proper(e: Ext) {
    || ((e.etype == 43 || e.etype == 41) && |e.body| == 2)
    || (e.etype == 51 && |e.body| >= 4 && 256 * (e.body[2] as int) + e.body[3] as int == |e.body| - 4)
  }

  ghost predicate AllProper(es: seq<Ext>) {
    forall i :: 0 <= i < |es| ==> Proper(es[i])
  }

  function Word(b: Option<(bytes, nat)>, otherwise: Option<nat>): Option<nat> {
    if b.Some? && |b.value.0| >= 2 then Some(256 * (b.value.0[0] as int) + b.value.0[1] as int) else otherwise
  }

  /** What the list says, on top of `x`. */
  function Says(es: seq<Ext>, at: nat, x: Exts): Exts {
    var share := Find(es, 51, at);
    Exts(if share.Some? && |share.value.0| >= 4 then Word(share, None).value else x.group,
         if share.Some? && |share.value.0| >= 4 then Some(Slice(share.value.1 + 4, |share.value.0| - 4)) else x.keyShare,
         Word(Find(es, 43, at), x.version), Word(Find(es, 41, at), x.psk))
  }

  /** Nothing in the list is said a second time. */
  predicate Fresh(es: seq<Ext>, x: Exts) {
    && (x.keyShare.Some? ==> Find(es, 51, 0).None?)
    && (x.version.Some? ==> Find(es, 43, 0).None?)
    && (x.psk.Some? ==> Find(es, 41, 0).None?)
  }

  lemma {:induction false} FoundIsProper(es: seq<Ext>, t: nat, at: nat)
    requires AllProper(es) && Find(es, t, at).Some?
    ensures Proper(Ext(t, Find(es, t, at).value.0))
    decreases |es|
  {
    if es[0].etype == t {
      assert es[0] == Ext(t, es[0].body);
    } else {
      FoundIsProper(es[1..], t, at + 4 + |es[0].body|);
    }
  }

  ghost predicate Good(es: seq<Ext>, x: Exts) { AllProper(es) && TypesOnce(es) && Fresh(es, x) }

  lemma OneLearnt(e: Ext, rest: seq<Ext>, at: nat, x: Exts)
    ensures var x1 := ShLearn(x, e.etype, e.body, at + 4);
      var es := [e] + rest;
      if x1.None? then !Good(es, x)
      else
        && (Good(es, x) <==> Good(rest, x1.value))
        && (Good(es, x) ==> Says(es, at, x) == Says(rest, at + 4 + |e.body|, x1.value))
  {
    var es := [e] + rest;
    assert es[1..] == rest;
    forall t: nat
      ensures Find(rest, t, 0).Some? == Find(rest, t, 4 + |e.body|).Some? == Find(rest, t, at + 4 + |e.body|).Some?
    {
      FindAnywhere(rest, t, 0, 4 + |e.body|);
      FindAnywhere(rest, t, 0, at + 4 + |e.body|);
    }
    assert AllProper(es) <==> Proper(e) && AllProper(rest) by {
      assert es[0] == e && forall i :: 0 <= i < |rest| ==> es[i + 1] == rest[i];
    }
  }

  lemma {:induction false} BlockExactly(es: seq<Ext>, at: nat, x: Exts)
    requires Narrow(es)
    ensures ShExtensions(EncExts(es), at, x) == if Good(es, x) then Some(Says(es, at, x)) else None
    decreases |es|
  {
    hide ShLearn, EncExt, Num16, Good, Says;
    if es == [] {
      NothingSaid(at, x);
    } else {
      var e := es[0];
      ExtLayout(e, EncExts(es[1..]));
      OneLearnt(e, es[1..], at, x);
      assert [e] + es[1..] == es;
      var x1 := ShLearn(x, e.etype, e.body, at + 4);
      if x1.Some? {
        BlockExactly(es[1..], at + 4 + |e.body|, x1.value);
      }
    }
  }

  lemma NothingSaid(at: nat, x: Exts)
    ensures Good([], x) && Says([], at, x) == x
  {}

  lemma {:induction false} BlockRead(b: bytes, at: nat, x: Exts)
    ensures ShExtensions(b, at, x)
         == if ReadExts(b).Some? && Good(ReadExts(b).value, x) then Some(Says(ReadExts(b).value, at, x)) else None
  {
    hide Good, Says, ShExtensions, ReadExts;
    if ReadExts(b).Some? {
      ExtsAssembled(b);
      BlockExactly(ReadExts(b).value, at, x);
    } else {
      UnreadIsRefused(b, at, x);
    }
  }

  lemma {:induction false} ExtsAssembled(b: bytes)
    requires ReadExts(b).Some?
    ensures Narrow(ReadExts(b).value) && EncExts(ReadExts(b).value) == b
    decreases |b|
  {
    hide EncExt, Num16;
    if b != [] {
      var n := Num16(b, 2);
      var e, rest := Ext(Num16(b, 0), b[4..4 + n]), ReadExts(b[4 + n..]).value;
      ExtsAssembled(b[4 + n..]);
      assert ([e] + rest)[1..] == rest;
      ExtAssembled(b);
    }
  }

  lemma {:induction false} UnreadIsRefused(b: bytes, at: nat, x: Exts)
    requires ReadExts(b).None?
    ensures ShExtensions(b, at, x).None?
    decreases |b|
  {
    hide Num16, ShLearn;
    if |b| >= 4 && |b| >= 4 + Num16(b, 2) {
      var n := Num16(b, 2);
      var x1 := ShLearn(x, Num16(b, 0), b[4..4 + n], at + 4);
      if x1.Some? {
        UnreadIsRefused(b[4 + n..], at + 4 + n, x1.value);
      }
    }
  }

  // ----- the message -----------------------------------------------------------------------

  /** A ServerHello that is no retry: version 3.3, no compression, each extension proper and said once. */
  ghost predicate IsServerHello(m: bytes, msg: ServerMsg) {
    && ReadServer(m) == Some(msg)
    && msg.version == 0x0303 && msg.random != HRR_RANDOM && msg.compression == 0 && Good(msg.exts, NO_EXTS)
  }

  /** The decoder takes exactly these messages, and from them exactly what the reader finds. */
  lemma ShParserExactly(m: bytes, sid: Slice, cipher: nat, x: Exts)
    ensures ParseSh(m) == Some(Sh(sid, cipher, x))
      <==> ReadServer(m).Some? && var msg := ReadServer(m).value;
           && IsServerHello(m, msg) && sid == Slice(39, |msg.sid|) && cipher == msg.cipher
           && x == Says(msg.exts, 44 + |msg.sid|, NO_EXTS)
  {
    hide Good, Says, ShExtensions, ReadExts, Num16, Num24;
    if |m| >= 44 && |m| >= 44 + m[38] as int {
      BlockRead(m[44 + m[38] as int..], 44 + m[38] as int, NO_EXTS);
    }
  }

  /** And a retry is recognised by its random alone. */
  lemma RetryExactly(m: bytes)
    ensures ParseSh(m) == Some(Retry) <==> |m| >= 38 && m[0] == 2 && m[6..38] == HRR_RANDOM
  {
    hide ShExtensions, HRR_RANDOM;
  }

  lemma WhereRead(m: bytes, msg: ServerMsg)
    requires ReadServer(m) == Some(msg)
    ensures |m| >= 44 + |msg.sid| && m[39..39 + |msg.sid|] == msg.sid
    ensures ReadExts(m[44 + |msg.sid|..]) == Some(msg.exts)
  {
    hide ReadExts, Num16, Num24;
  }

  lemma InnerSlice(m: bytes, p: nat, off: nat, b: bytes)
    requires p <= off && off + |b| <= |m| && m[p..][off - p..off - p + |b|] == b && |b| >= 4
    ensures var s := Slice(off + 4, |b| - 4); s.In(m) && s.Of(m) == b[4..]
  {
    SubSlice(m, p, |m|, off - p, off - p + |b|);
    assert m[p..|m|] == m[p..];
    assert m[off..off + |b|] == b;
    SubSlice(m, off, off + |b|, 4, |b|);
    assert b[4..|b|] == b[4..];
  }

  /** The slices that the decoder returns hold the session id and the share. */
  lemma SlicesHold(m: bytes, msg: ServerMsg)
    requires IsServerHello(m, msg)
    ensures Slice(39, |msg.sid|).In(m) && Slice(39, |msg.sid|).Of(m) == msg.sid
    ensures var share := Find(msg.exts, 51, 44 + |msg.sid|);
      share.Some? ==>
        && |share.value.0| >= 4
        && var s := Slice(share.value.1 + 4, |share.value.0| - 4); s.In(m) && s.Of(m) == share.value.0[4..]
  {
    hide ReadExts, EncExts, Find, ReadServer, HRR_RANDOM, TypesOnce, Fresh;
    WhereRead(m, msg);
    var p := 44 + |msg.sid|;
    ExtsAssembled(m[p..]);
    if Find(msg.exts, 51, p).Some? {
      FoundInBlock(msg.exts, 51, p);
      FoundIsProper(msg.exts, 51, p);
      var (b, off) := Find(msg.exts, 51, p).value;
      InnerSlice(m, p, off, b);
    }
  }

  // ----- the choice ------------------------------------------------------------------------

  /** The share in the list, whatever its group. */
  function ShareIn(msg: ServerMsg): bytes {
    var share := Find(msg.exts, 51, 0);
    if share.Some? && |share.value.0| >= 4 then share.value.0[4..] else []
  }

  /**
   * TLS_AES_128_GCM_SHA256, TLS 1.3, x25519 with a share of 32 octets, the offered PSK or none if none
   * was offered, and the client's own session id.
   */
  predicate Selects(o: Offer, msg: ServerMsg) {
    && msg.cipher == 0x1301 && msg.sid == o.sid && |o.sid| == 32
    && Word(Find(msg.exts, 43, 0), None) == Some(0x0304)
    && Word(Find(msg.exts, 51, 0), None) == Some(0x001d) && |ShareIn(msg)| == 32
    && Word(Find(msg.exts, 41, 0), None) == o.psk
  }

  lemma NegotiatedShare(o: Offer, m: bytes, msg: ServerMsg)
    requires IsServerHello(m, msg)
    ensures Negotiated(o, m) == if Selects(o, msg) then Share(ShareIn(msg)) else Declined(IllegalParam)
  {
    hide ParseSh, ReadServer, Good, Find;
    var at := 44 + |msg.sid|;
    ShParserExactly(m, Slice(39, |msg.sid|), msg.cipher, Says(msg.exts, at, NO_EXTS));
    SlicesHold(m, msg);
    FindAnywhere(msg.exts, 43, at, 0);
    FindAnywhere(msg.exts, 51, at, 0);
    FindAnywhere(msg.exts, 41, at, 0);
  }

  /** What the client makes of a message: a retry is not supported, a ServerHello must select what was offered. */
  lemma NegotiatedExactly(o: Offer, m: bytes)
    ensures var msg := ReadServer(m);
      Negotiated(o, m)
      == if |m| >= 38 && m[0] == 2 && m[6..38] == HRR_RANDOM then Declined(Unsupported)
         else if msg.None? || !IsServerHello(m, msg.value) then Declined(InvalidArg)
         else if Selects(o, msg.value) then Share(ShareIn(msg.value)) else Declined(IllegalParam)
  {
    hide ReadServer, ParseSh, HRR_RANDOM, Selects, IsServerHello;
    RetryExactly(m);
    if ReadServer(m).Some? && IsServerHello(m, ReadServer(m).value) {
      NegotiatedShare(o, m, ReadServer(m).value);
      NotRetry(m, ReadServer(m).value);
    } else if ParseSh(m).Some? && ParseSh(m).value.Sh? {
      var sh := ParseSh(m).value;
      ShParserExactly(m, sh.sid, sh.cipher, sh.exts);
    }
  }

  lemma NotRetry(m: bytes, msg: ServerMsg)
    requires IsServerHello(m, msg)
    ensures |m| >= 38 && m[6..38] != HRR_RANDOM
  {
    hide ReadExts, Good, HRR_RANDOM;
  }

  /**
   * The client has keys if and only if the first record that is not a ChangeCipherSpec is a handshake
   * record with a ServerHello that selects what was offered, and the key exchange succeeds; the
   * transcript is then its own hello and this message.
   */
  lemma KeyedExactly(c: Suite, o: Offer, cap: nat, n: Net, keys: HsKeys, tr: bytes, n1: Net)
    ensures AwaitServerHello(c, o, cap, n) == Keyed(keys, tr, n1)
      <==> exists m: bytes, msg: ServerMsg, z: bytes :: HelloTaken(c, o, cap, n, m, msg, z, keys, tr, n1)
  {
    hide NextRecord, Negotiated, Selects, IsServerHello, HRR_RANDOM, DeriveHsKeys;
    var got := NextRecord(n.inp, cap);
    if got.status == Success && got.ctype == REC_HANDSHAKE {
      var m := got.rec[5..];
      NegotiatedExactly(o, m);
      if AwaitServerHello(c, o, cap, n) == Keyed(keys, tr, n1) {
        var msg := ReadServer(m).value;
        var z := c.agree(o.priv, ShareIn(msg)).value;
        assert HelloTaken(c, o, cap, n, m, msg, z, keys, tr, n1);
      }
    }
    if m, msg, z :| HelloTaken(c, o, cap, n, m, msg, z, keys, tr, n1) {
      TakenIsNoRetry(m, msg);
    }
  }

  lemma TakenIsNoRetry(m: bytes, msg: ServerMsg)
    requires IsServerHello(m, msg)
    ensures !(|m| >= 38 && m[0] == 2 && m[6..38] == HRR_RANDOM) && ReadServer(m) == Some(msg)
  {
    hide ReadServer, Good, HRR_RANDOM;
    NotRetry(m, msg);
  }

  ghost predicate HelloTaken(c: Suite, o: Offer, cap: nat, n: Net, m: bytes, msg: ServerMsg, z: bytes, keys: HsKeys,
                             tr: bytes, n1: Net)
  {
    var got := NextRecord(n.inp, cap);
    && got.status == Success && got.ctype == 22 && got.rec[5..] == m && n1 == n.(inp := got.rest)
    && IsServerHello(m, msg) && Selects(o, msg) && c.agree(o.priv, ShareIn(msg)) == Some(z)
    && tr == o.hello + m && keys == DeriveHsKeys(c, o.early, z, c.hash(tr))
  }

  /** A ServerHello that misses one of these is answered with an illegal parameter. */
  lemma UnofferedRefused(c: Suite, o: Offer, cap: nat, n: Net, msg: ServerMsg)
    requires var got := NextRecord(n.inp, cap);
      got.status == Success && got.ctype == 22 && IsServerHello(got.rec[5..], msg) && !Selects(o, msg)
    ensures AwaitServerHello(c, o, cap, n) == Broken(IllegalParam, n.(inp := NextRecord(n.inp, cap).rest))
  {
    hide NextRecord, Negotiated, Selects, HRR_RANDOM, IsServerHello;
    NegotiatedShare(o, NextRecord(n.inp, cap).rec[5..], msg);
  }
}
