/** What the PSK and the certificate client have in common (`wn_connect.c`). */
module ClientStart {
  import opened Bytes
  import opened Crypto
  import opened KeySchedule
  import opened Transport
  import opened Record
  import opened Handshake
  import opened HandshakeKeys
  import opened Session
  import opened ClientHelloSpec
  import SH = ServerHello

  const SCRATCH_MIN: nat := 2048

  // ----- specification ---------------------------------------------------------------------

  /** What the client has offered: its message, session id, key, PSK index and early secret. */
  datatype Offer = Offer(hello: bytes, sid: bytes, priv: bytes, psk: Option<nat>, early: bytes)

  function AwaitServerHello(c: Suite, o: Offer, cap: nat, n: Net): (e: Exchange)
    ensures e.Broken? ==> e.status != Success
  {
    var got := NextRecord(n.inp, cap);
    var n1 := n.(inp := got.rest);
    if got.status != Success then Broken(got.status, n1)
    else if got.ctype != REC_HANDSHAKE then Broken(UnexpectedMsg, n1)
    else OnServerHello(c, o, got.rec[HEADER_SZ..], n1)
  }

  function OnServerHello(c: Suite, o: Offer, m: bytes, n: Net): (e: Exchange)
    ensures e.Broken? ==> e.status != Success
  {
    match Negotiated(o, m)
    case Declined(status) => Broken(status, n)
    case Share(share) =>
      var z := c.agree(o.priv, share);
      if z.None? then Broken(CryptoErr, n) else
      var tr := o.hello + m;
      Keyed(DeriveHsKeys(c, o.early, z.value, c.hash(tr)), tr, n)
  }

  datatype Negotiation = Declined(status: Status) | Share(share: bytes)

  /** The ServerHello must echo the session id and select exactly what the client offered. */
  function Negotiated(o: Offer, m: bytes): (r: Negotiation)
    ensures r.Declined? ==> r.status != Success
  {
    match SH.ParseSh(m)
    case None => Declined(InvalidArg)
    case Some(Retry) => Declined(Unsupported)
    case Some(Sh(sid, cipher, x)) =>
      if x.keyShare.None? || x.keyShare.value.len != SHARE_SZ || cipher != CIPHER || x.version != Some(TLS13)
         || x.group != GROUP || x.psk != o.psk || sid.len != 32
         || !sid.In(m) || sid.Of(m) != o.sid || !x.keyShare.value.In(m)
      then Declined(IllegalParam)
      else Share(x.keyShare.value.Of(m))
  }

  // What the next message of the encrypted flight amounts to; `F` is the state of the flight.
  datatype Reading<F> = Wait | Took(fl: F) | Ended(tr: bytes) | Refused(status: Status)

  datatype FlightEnd = Done(tr: bytes, rest: bytes) | Bad(status: Status, rest: bytes)

  datatype FlightStep<F> = Onward(fl: F, rest: bytes) | Over(e: FlightEnd)

  /** The client's Finished, and then the application keys over the same transcript. */
  function ClientFinish(c: Suite, keys: HsKeys, tr: bytes, n: Net): HsResult {
    var n1 := n.Sent(FinishedRecord(c, keys.client, tr));
    if !n.CanSend() then Failed(CryptoErr, n1)
    else HsResult(Success, n1, Some(AppEnds(c, Role.Client, keys.hs, c.hash(tr))))
  }

  // ----- the code --------------------------------------------------------------------------

  method RecvServerHello(c: Suite, t: Pipe, scratch: array<byte>, cap: nat, o: Offer, tc: bytes)
    returns (ret: Status, keys: HsKeys, tc': bytes)
    requires c.Laws() && HEADER_SZ <= cap <= scratch.Length <= MAX_BUFFER && tc == o.hello && |o.sid| == 32
    modifies t`inp, scratch
    ensures AwaitServerHello(c, o, cap, old(t.State())) == ExchangeOf(ret, keys, tc', t.State())
    ensures ret == Success ==> keys.client.Sized() && keys.server.Sized()
  {
    hide NextRecord, OnServerHello, DeriveHsKeys;
    keys, tc' := NoKeys(), tc;
    var rtype, recLen;
    ret, rtype, recLen := RecvSkippingCcs(t, scratch, 0, cap);
    if ret == Success && rtype != REC_HANDSHAKE {
      ret := UnexpectedMsg;
    }
    if ret == Success {
      assert scratch[0..recLen][HEADER_SZ..] == scratch[HEADER_SZ..recLen];
      ret, keys, tc' := TakeServerHello(c, o, scratch[HEADER_SZ..recLen], tc, t.State());
    }
  }

  function NoKeys(): HsKeys { HsKeys([], Dir([], [], [], 0), Dir([], [], [], 0)) }

  function ExchangeOf(ret: Status, keys: HsKeys, tr: bytes, n: Net): Exchange {
    if ret == Success then Keyed(keys, tr, n) else Broken(ret, n)
  }

  method TakeServerHello(c: Suite, o: Offer, m: bytes, tc: bytes, ghost n: Net)
    returns (ret: Status, keys: HsKeys, tc': bytes)
    requires c.Laws() && |m| <= MAX_BUFFER && tc == o.hello && |o.sid| == 32
    ensures OnServerHello(c, o, m, n) == ExchangeOf(ret, keys, tc', n)
    ensures ret == Success ==> keys.client.Sized() && keys.server.Sized()
  {
    hide SH.ParseSh, DeriveHsKeys;
    keys, tc' := NoKeys(), tc;
    var sh;
    ret, sh := SH.Parse(m);
    if ret == Success && sh.Retry? {
      ret := Unsupported;
    }
    if ret == Success {
      tc' := tc' + m;
      SlicesInside(m, sh);
      if sh.exts.keyShare.None? || sh.exts.keyShare.value.len != SHARE_SZ || sh.cipher != 0x1301
         || sh.exts.version != Some(0x0304) || sh.exts.group != 0x001d || sh.exts.psk != o.psk
         || sh.sid.len != 32 || m[sh.sid.off..sh.sid.off + 32] != o.sid {
        ret := IllegalParam;
      }
    }
    if ret == Success {
      var share := sh.exts.keyShare.value;
      var z := c.agree(o.priv, m[share.off..share.off + share.len]);
      if z.None? {
        ret := CryptoErr;
      } else {
        keys := DeriveHsKeys(c, o.early, z.value, c.hash(tc'));
        KeysSized(c, o.early, z.value, c.hash(tc'));
      }
    }
  }

  lemma SlicesInside(m: bytes, sh: SH.Sh)
    requires SH.ParseSh(m) == Some(sh) && sh.Sh?
    ensures sh.sid.In(m) && (sh.exts.keyShare.Some? ==> sh.exts.keyShare.value.In(m))
  {
    hide SH.ShExtensions, SH.HRR_RANDOM;
    var p := 39 + m[38] as int;
    ShareInside(m[p + 5..], p + 5, SH.NO_EXTS, |m|);
  }

  lemma {:induction false} ShareInside(b: bytes, at: nat, x: SH.Exts, end: nat)
    requires at + |b| == end && SH.ShExtensions(b, at, x).Some?
    requires x.keyShare.Some? ==> x.keyShare.value.off + x.keyShare.value.len <= end
    ensures var k := SH.ShExtensions(b, at, x).value.keyShare; k.Some? ==> k.value.off + k.value.len <= end
    decreases |b|
  {
    if b != [] {
      var n := Num16(b, 2);
      var x1 := SH.ShLearn(x, Num16(b, 0), b[4..4 + n], at + 4);
      ShareInside(b[4 + n..], at + 4 + n, x1.value, end);
    }
  }

  /** Send the client Finished as the first record under the handshake key. */
  method SendFinished(c: Suite, t: Pipe, scratch: array<byte>, d: Dir, tr: bytes) returns (ret: Status)
    requires c.Laws() && scratch.Length >= SCRATCH_MIN && d.Sized()
    modifies t`out, t`sends, scratch
    ensures ret == if old(t.State()).CanSend() then Success else CryptoErr
    ensures t.State() == old(t.State()).Sent(FinishedRecord(c, d, tr))
  {
    hide Sealed;
    var fin := [HS_FINISHED, 0, 0, 32] + FinishedMac(c, d.secret, c.hash(tr));
    var recLen;
    ret, recLen := Protect(c, scratch, 0, d.key, d.iv, 0, REC_HANDSHAKE, fin);
    assert scratch[0..recLen] == scratch[..recLen];
    var ok := t.Send(scratch[..recLen]);
    if !ok {
      ret := CryptoErr;
    }
  }

  ghost function ResultOf(ret: Status, sess: Session): HsResult
    reads sess, sess.pipe, sess.cAppSecret, sess.cKey, sess.cIv, sess.sAppSecret, sess.sKey, sess.sIv
  {
    HsResult(ret, sess.pipe.State(), if ret == Success then Some(Ends(sess.Writing(), sess.Reading())) else None)
  }

  ghost predicate Ready(sess: Session, scratchLen: nat)
    reads sess
  {
    sess.established && !sess.closed && sess.scratchLen == scratchLen && sess.gen == 0 && sess.log == []
  }
}
