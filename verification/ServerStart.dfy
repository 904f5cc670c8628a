/**
 * What the PSK and the certificate server have in common: answering the ClientHello and waiting
 * for the client's Finished (`wn_accept.c`).
 */
module ServerStart {
  import opened Bytes
  import opened Crypto
  import opened KeySchedule
  import opened Transport
  import opened Record
  import opened Handshake
  import opened HandshakeKeys
  import opened HelloRetry
  import opened ClientHelloSpec
  import opened HelloStructure
  import Build = ServerHelloBuild
  import RoundTrip = ServerHelloRoundTrip

  /** Everything the parser returned lies in the message. */
  lemma OfferInside(m: bytes, h: Parsed)
    requires ParseHello(m) == Accept(h)
    ensures h.keyShare.Some? ==> h.keyShare.value.In(m)
    ensures h.sigAlgs.Some? ==> h.sigAlgs.value.In(m) && h.sigAlgs.value.len < 0x1_0000
    ensures h.psk.Some? ==>
      var p := h.psk.value;
      p.identity.In(m) && p.binder.In(m) && p.binder.len == 32 && p.truncLen <= |m|
  {
    hide ParseHello;
    var _ := AcceptedStructure(m);
  }

  function ShareOf(m: bytes, h: Parsed): bytes
    requires ParseHello(m) == Accept(h) && h.keyShare.Some?
  {
    OfferInside(m, h);
    h.keyShare.value.Of(m)
  }

  /** The server's random values: the ServerHello random and its ephemeral key. */
  datatype Drawn = Drawn(random: bytes, priv: bytes)

  function ServerHelloFor(c: Suite, d: Drawn, g: Greeting, psk: Option<nat>): bytes
    requires g.Greeting? && g.Valid()
  {
    Build.ShBytes(d.random, SidOf(g.msg, g.hello), CIPHER, GROUP, c.share(d.priv), psk)
  }

  /** Exchange keys and send the ServerHello; the ChangeCipherSpec follows it unless a retry had one. */
  function Answer(c: Suite, d: Drawn, g: Greeting, psk: Option<nat>, early: bytes): (e: Exchange)
    requires g.Greeting? && g.Valid() && g.hello.keyShare.Some?
    ensures e.Broken? ==> e.status != Success
  {
    var z := c.agree(d.priv, ShareOf(g.msg, g.hello));
    if z.None? then Broken(CryptoErr, g.n) else
    var sh := ServerHelloFor(c, d, g, psk);
    var s := if g.retried then SendPlain(g.n, REC_HANDSHAKE, sh) else SendWithCcs(g.n, sh);
    if s.ret != Success then Broken(s.ret, s.n) else
    var tr := g.pre + g.msg + sh;
    Keyed(DeriveHsKeys(c, early, z.value, c.hash(tr)), tr, s.n)
  }

  /** The client's Finished must be the first record under its handshake key and alone in it. */
  function AwaitFinished(c: Suite, d: Dir, cap: nat, limit: nat, tr: bytes, n: Net): Sending {
    var got := NextRecord(n.inp, cap);
    var n1 := n.(inp := got.rest);
    if got.status != Success then Sending(got.status, n1)
    else if got.ctype != REC_APPDATA || |got.rec| > limit + HEADER_SZ + TAG_SZ then Sending(UnexpectedMsg, n1)
    else Sending(FinishedVerdict(c, d, tr, Unsealed(c, d.key, d.iv, 0, got.rec)), n1)
  }

  function FinishedVerdict(c: Suite, d: Dir, tr: bytes, o: Opened): Status {
    if o.status != Success then o.status
    else if o.ctype != REC_HANDSHAKE || |o.content| != 36 || o.content[0] != HS_FINISHED then UnexpectedMsg
    else if o.content[4..] != FinishedMac(c, d.secret, c.hash(tr)) then BadMac
    else Success
  }

  // ----- the code --------------------------------------------------------------------------

  method AnswerHello(c: Suite, t: Pipe, scratch: array<byte>, scratchLen: nat, d: Drawn, ch: Parsed, chLen: nat,
                     retried: bool, tc: bytes, psk: Option<nat>, early: bytes, ghost g: Greeting)
    returns (ret: Status, keys: HsKeys, tc': bytes)
    requires c.Laws() && |d.random| == 32 && 2048 <= scratchLen <= scratch.Length <= MAX_BUFFER && chLen <= scratchLen
    requires g.Greeting? && g.Valid() && g.hello.keyShare.Some? && g.n == t.State()
    requires g.msg == scratch[..chLen] && g.hello == ch && g.retried == retried && tc == g.pre + g.msg
    modifies t`out, t`sends, scratch
    ensures Answer(c, d, g, psk, early) == if ret == Success then Keyed(keys, tc', t.State()) else Broken(ret, t.State())
    ensures ret == Success ==> keys.client.Sized() && keys.server.Sized()
  {
    hide ParseHello, Build.ShBytes, DeriveHsKeys, SendWithCcs, SendPlain;
    ret, tc' := Success, tc;
    keys := HsKeys([], Dir([], [], [], 0), Dir([], [], [], 0));
    OfferInside(g.msg, ch);
    SidInside(g.msg, ch);
    var share := ch.keyShare.value;
    assert scratch[share.off..share.off + share.len] == g.msg[share.off..share.off + share.len];
    var z := c.agree(d.priv, scratch[share.off..share.off + share.len]);
    if z.None? {
      ret := CryptoErr;
    } else {
      assert scratch[ch.sid.off..ch.sid.off + ch.sid.len] == g.msg[ch.sid.off..ch.sid.off + ch.sid.len];
      var sid := scratch[ch.sid.off..ch.sid.off + ch.sid.len];
      var sh := PutServerHello(c, scratch, scratchLen, d, sid, psk);
      tc' := tc' + sh;
      ret := SendAnswer(t, sh, retried);
      if ret == Success {
        keys := DeriveHsKeys(c, early, z.value, c.hash(tc'));
        KeysSized(c, early, z.value, c.hash(tc'));
      }
    }
  }

  method SendAnswer(t: Pipe, sh: bytes, retried: bool) returns (ret: Status)
    modifies t`out, t`sends
    ensures Sending(ret, t.State())
         == if retried then SendPlain(old(t.State()), REC_HANDSHAKE, sh) else SendWithCcs(old(t.State()), sh)
  {
    ret := SendPlainRecord(t, REC_HANDSHAKE, sh);
    if ret == Success && !retried {
      ret := SendCcs(t);
    }
  }

  method PutServerHello(c: Suite, scratch: array<byte>, scratchLen: nat, d: Drawn, sid: bytes, psk: Option<nat>)
    returns (sh: bytes)
    requires c.Laws() && |d.random| == 32 && |sid| <= 32 && 2048 <= scratchLen <= scratch.Length <= MAX_BUFFER
    modifies scratch
    ensures sh == Build.ShBytes(d.random, sid, CIPHER, GROUP, c.share(d.priv), psk)
  {
    hide Build.ShBytes;
    RoundTrip.ServerHelloSlices(d.random, sid, CIPHER, GROUP, c.share(d.priv), psk);
    var _, shLen := Build.BuildServerHello(scratch, 0, scratchLen, d.random, sid, CIPHER, GROUP, c.share(d.priv), psk);
    sh := scratch[..shLen];
    assert scratch[0..shLen] == scratch[..shLen];
  }

  /** Receive and verify the client Finished: the plaintext goes to `dst`, of `limit` octets. */
  method RecvFinished(c: Suite, t: Pipe, scratch: array<byte>, cap: nat, dst: array<byte>, dOff: nat, limit: nat,
                      d: Dir, tr: bytes)
    returns (ret: Status)
    requires c.Laws() && HEADER_SZ <= cap <= scratch.Length && dOff + limit <= dst.Length && d.Sized() && 36 <= limit
    modifies t`inp, scratch, dst
    ensures Sending(ret, t.State()) == AwaitFinished(c, d, cap, limit, tr, old(t.State()))
  {
    hide NextRecord, FinishedVerdict;
    var rtype, recLen;
    ret, rtype, recLen := RecvSkippingCcs(t, scratch, 0, cap);
    if ret == Success && rtype != REC_APPDATA {
      ret := UnexpectedMsg;
    }
    if ret == Success && recLen > limit + HEADER_SZ + TAG_SZ {
      ret := UnexpectedMsg;
    }
    if ret == Success {
      ret := CheckFinished(c, scratch, recLen, dst, dOff, d, tr);
    }
  }

  method CheckFinished(c: Suite, scratch: array<byte>, recLen: nat, dst: array<byte>, dOff: nat, d: Dir, tr: bytes)
    returns (ret: Status)
    requires c.Laws() && recLen <= scratch.Length && dOff + recLen - HEADER_SZ - TAG_SZ <= dst.Length && d.Sized()
    requires dOff <= dst.Length
    modifies dst
    ensures ret == FinishedVerdict(c, d, tr, Unsealed(c, d.key, d.iv, 0, old(scratch[0..recLen])))
  {
    hide Unsealed;
    var len, ctype;
    ret, len, ctype := Unprotect(c, dst, dOff, d.key, d.iv, 0, scratch, 0, recLen);
    if ret == Success && (ctype != REC_HANDSHAKE || len != 36 || dst[dOff] != HS_FINISHED) {
      ret := UnexpectedMsg;
    }
    if ret == Success && dst[dOff + 4..dOff + 36] != FinishedMac(c, d.secret, c.hash(tr)) {
      assert dst[dOff..dOff + 36][4..] == dst[dOff + 4..dOff + 36];
      ret := BadMac;
    }
  }
}
