/** `wn_Accept_Cert_ex`: the certificate server, as a function of its input stream and as code. */
module CertServer {
  import opened Bytes
  import opened Crypto
  import opened KeySchedule
  import opened Transport
  import opened Record
  import opened Handshake
  import opened HandshakeKeys
  import opened HelloRetry
  import opened ServerStart
  import opened CertHello
  import opened CertMessages
  import opened Session
  import Spec = ClientHelloSpec
  import Build = ServerHelloBuild
  import ClientStart

  const SCRATCH_MIN: nat := 4096

  // ----- specification ---------------------------------------------------------------------

  /** The caller's arguments and the random values the server draws. */
  datatype Server = Server(drawn: Drawn, cert: bytes, key: bytes, scheme: nat, scratchLen: nat) {
    predicate Sized() { |drawn.random| == 32 && |cert| <= MAX_BUFFER }

    predicate ArgsOk() { scratchLen >= SCRATCH_MIN }

    function Half(): nat { scratchLen / 2 }
  }

  function NoPsk(c: Suite): bytes { Early(c, Zeros(HASH_SZ)) }

  function ServerRun(c: Suite, k: Server, n: Net): HsResult {
    if !k.ArgsOk() then Failed(InvalidArg, n) else
    match ToKeys(c, k, n)
    case Broken(status, n1) => Failed(status, n1)
    case Keyed(keys, tr, n1) => ServerFlight(c, k, keys, tr, n1)
  }

  /** The client must have offered our scheme. */
  function ToKeys(c: Suite, k: Server, n: Net): Exchange {
    var g := Greet(c, n, k.scratchLen);
    if g.Refusal? then Broken(g.status, g.n)
    else if !Offers(g.msg, g.hello, k.scheme) then Broken(IllegalParam, g.n)
    else Answer(c, k.drawn, g, None, NoPsk(c))
  }

  /** EncryptedExtensions, Certificate and CertificateVerify, signed over the transcript before it. */
  datatype Prefix = Prefix(status: Status, msgs: bytes)

  function FlightPrefix(c: Suite, k: Server, tr: bytes): Prefix {
    var ee, cert := Build.EE_BYTES, CertMsg(k.cert);
    if 6 + |cert| > k.Half() then Prefix(CryptoErr, []) else
    var cv := SignedCv(c, k.key, k.scheme, c.hash(tr + ee + cert), k.Half() - 6 - |cert|);
    if cv.None? then Prefix(CryptoErr, [])
    else if 6 + |cert| + |cv.value| + 36 + HEADER_SZ + 1 + TAG_SZ > k.Half() then Prefix(InvalidArg, [])
    else Prefix(Success, ee + cert + cv.value)
  }

  /** The whole flight, closed by Finished over everything before it. */
  function WholeFlight(c: Suite, secret: bytes, tr: bytes, msgs: bytes): bytes {
    msgs + FinishedMsg(c, secret, tr + msgs)
  }

  function FlightOut(c: Suite, d: Dir, flight: bytes): bytes {
    Sealed(c, d.key, d.iv, 0, REC_HANDSHAKE, flight, 0)
  }

  function ServerFlight(c: Suite, k: Server, keys: HsKeys, tr: bytes, n: Net): HsResult {
    var p := FlightPrefix(c, k, tr);
    if p.status != Success then Failed(p.status, n) else
    var flight := WholeFlight(c, keys.server.secret, tr, p.msgs);
    if |flight| > MAX_PLAINTEXT then Failed(InvalidArg, n) else
    var n1 := n.Sent(FlightOut(c, keys.server, flight));
    if !n.CanSend() then Failed(CryptoErr, n1) else
    var s := AwaitFinished(c, keys.client, k.scratchLen, k.Half(), tr + flight, n1);
    if s.ret != Success then Failed(s.ret, s.n)
    else HsResult(Success, s.n, Some(AppEnds(c, Role.Server, keys.hs, c.hash(tr + flight))))
  }

  // ----- the code --------------------------------------------------------------------------

  method Greeted(c: Suite, t: Pipe, scratch: array<byte>, k: Server)
    returns (ret: Status, keys: HsKeys, tc: bytes)
    requires c.Laws() && k.Sized() && k.ArgsOk() && k.scratchLen <= scratch.Length <= MAX_BUFFER
    modifies t, scratch
    ensures ToKeys(c, k, old(t.State())) == if ret == Success then Keyed(keys, tc, t.State()) else Broken(ret, t.State())
    ensures ret == Success ==> keys.client.Sized() && keys.server.Sized()
  {
    hide Spec.ParseHello, Answer, RecvHello, MaybeRetry, AppEnds, Offers, NoPsk;
    keys, tc := HsKeys([], Dir([], [], [], 0), Dir([], [], [], 0)), [];
    var chLen, ch;
    ret, chLen, ch := RecvClientHello(t, scratch, k.scratchLen, [], false);
    var retried := false;
    if ret == Success {
      retried := ch.keyShare.None?;
      ret, chLen, ch, tc := AcceptMaybeHrr(c, t, scratch, k.scratchLen, chLen, ch, tc);
    }
    ghost var g := Greet(c, old(t.State()), k.scratchLen);
    if ret == Success {
      OfferInside(g.msg, ch);
      var found := HasSigAlg(scratch[..chLen], ch, k.scheme);
      if !found {
        ret := IllegalParam;
      }
    }
    if ret == Success {
      tc := tc + scratch[..chLen];
      ret, keys, tc := AnswerHello(c, t, scratch, k.scratchLen, k.drawn, ch, chLen, retried, tc, None, NoPsk(c), g);
    }
  }

  // EncryptedExtensions and Certificate, at the start of the scratch buffer.
  method PutEeAndCert(scratch: array<byte>, half: nat, cert: bytes, tc: bytes) returns (ret: Status, len: nat, tc': bytes)
    requires 6 <= half <= scratch.Length <= MAX_BUFFER && |cert| <= MAX_BUFFER
    modifies scratch
    ensures ret == if 6 + |CertMsg(cert)| > half then CryptoErr else Success
    ensures ret == Success ==>
      len == 6 + |CertMsg(cert)| && scratch[..len] == Build.EE_BYTES + CertMsg(cert)
          && tc' == tc + Build.EE_BYTES + CertMsg(cert)
  {
    hide CertMsg;
    var mLen;
    ret, mLen := Build.BuildEncExt(scratch, 0, half);
    tc' := tc + scratch[0..mLen];
    ret, mLen := BuildServerCert(scratch, 6, half - 6, cert);
    len := 6 + mLen;
    if ret == Success {
      tc' := tc' + scratch[6..6 + mLen];
      assert scratch[0..6] == Build.EE_BYTES;
      assert scratch[..len] == scratch[0..6] + scratch[6..len];
    }
  }

  // CertificateVerify behind them, signed over the transcript through Certificate.
  method PutCv(c: Suite, scratch: array<byte>, half: nat, at: nat, k: Server, tc: bytes)
    returns (ret: Status, len: nat, tc': bytes)
    requires at <= half <= scratch.Length <= MAX_BUFFER
    modifies scratch
    ensures var cv := SignedCv(c, k.key, k.scheme, c.hash(tc), half - at);
      && ret == (if cv.None? then CryptoErr else Success)
      && (ret == Success ==>
           && len == at + |cv.value| && len <= half
           && scratch[..len] == old(scratch[..at]) + cv.value && tc' == tc + cv.value)
  {
    hide SignedCv;
    ghost var before := scratch[..at];
    var mLen;
    ret, mLen := SignCertVerify(c, scratch, at, half - at, k.scheme, k.key, c.hash(tc));
    len, tc' := at + mLen, tc;
    if ret == Success {
      tc' := tc + scratch[at..len];
      assert scratch[..at] == before;
      assert scratch[..len] == scratch[..at] + scratch[at..len];
    }
  }

  /** The flight up to CertificateVerify, laid out in the lower half of the scratch buffer. */
  method BuildPrefix(c: Suite, scratch: array<byte>, k: Server, tc: bytes)
    returns (ret: Status, flightLen: nat, tc': bytes)
    requires c.Laws() && k.Sized() && k.ArgsOk() && k.scratchLen <= scratch.Length <= MAX_BUFFER
    modifies scratch
    ensures var p := FlightPrefix(c, k, tc);
      && ret == p.status
      && (ret == Success ==>
           && flightLen == |p.msgs| && flightLen <= k.Half()
           && scratch[..flightLen] == p.msgs && tc' == tc + p.msgs)
    ensures ret == Success ==> flightLen + 36 + HEADER_SZ + 1 + TAG_SZ <= k.Half()
  {
    hide CertMsg, SignedCv;
    var half := k.Half();
    ret, flightLen, tc' := PutEeAndCert(scratch, half, k.cert, tc);
    if ret == Success {
      ret, flightLen, tc' := PutCv(c, scratch, half, flightLen, k, tc');
    }
    if ret == Success {
      ghost var ee, cert := Build.EE_BYTES, CertMsg(k.cert);
      ghost var cv := SignedCv(c, k.key, k.scheme, c.hash(tc + ee + cert), half - 6 - |cert|).value;
      assert tc + ee + cert + cv == tc + (ee + cert + cv);
    }
    if ret == Success && flightLen + 4 + 32 + HEADER_SZ + 1 + TAG_SZ > half {
      ret := InvalidArg;
    }
  }

  /** Append Finished, encrypt the flight into the upper half and send it. */
  method SendFlight(c: Suite, t: Pipe, scratch: array<byte>, k: Server, keys: HsKeys, len: nat, tc: bytes,
                    ghost tr: bytes)
    returns (ret: Status, tc': bytes)
    requires c.Laws() && k.ArgsOk() && k.scratchLen <= scratch.Length && keys.server.Sized()
    requires len + 36 + HEADER_SZ + 1 + TAG_SZ <= k.Half() && tc == tr + scratch[..len]
    modifies t`out, t`sends, scratch
    ensures var flight := WholeFlight(c, keys.server.secret, tr, old(scratch[..len]));
      if |flight| > MAX_PLAINTEXT then ret == InvalidArg && t.State() == old(t.State())
      else
        && ret == (if old(t.State()).CanSend() then Success else CryptoErr)
        && t.State() == old(t.State()).Sent(FlightOut(c, keys.server, flight)) && tc' == tr + flight
  {
    hide Sealed;
    ghost var msgs := scratch[..len];
    var fin := PutFinished(c, scratch, len, keys.server.secret, tc);
    tc' := tc + fin;
    assert tr + msgs + fin == tr + (msgs + fin);
    ret := SealFlight(c, t, scratch, k.Half(), keys.server, scratch[..len + 36]);
  }

  method PutFinished(c: Suite, scratch: array<byte>, len: nat, secret: bytes, tc: bytes) returns (fin: bytes)
    requires c.Laws() && len + 36 <= scratch.Length
    modifies scratch
    ensures fin == FinishedMsg(c, secret, tc) && |fin| == 36 && scratch[..len + 36] == old(scratch[..len]) + fin
  {
    hide FinishedMac;
    ghost var msgs := scratch[..len];
    fin := [HS_FINISHED, 0, 0, 32] + FinishedMac(c, secret, c.hash(tc));
    MacSize(c, secret, c.hash(tc));
    Overwrite(scratch, len, fin);
    assert scratch[..len] == msgs;
    assert scratch[..len + 36] == scratch[..len] + scratch[len..len + 36];
  }

  method SealFlight(c: Suite, t: Pipe, scratch: array<byte>, half: nat, d: Dir, flight: bytes) returns (ret: Status)
    requires c.Laws() && d.Sized() && half + HEADER_SZ + |flight| + 1 + TAG_SZ <= scratch.Length
    modifies t`out, t`sends, scratch
    ensures if |flight| > MAX_PLAINTEXT then ret == InvalidArg && t.State() == old(t.State())
      else
        && ret == (if old(t.State()).CanSend() then Success else CryptoErr)
        && t.State() == old(t.State()).Sent(Sealed(c, d.key, d.iv, 0, REC_HANDSHAKE, flight, 0))
  {
    hide Sealed;
    var encLen;
    ret, encLen := Protect(c, scratch, half, d.key, d.iv, 0, REC_HANDSHAKE, flight);
    if ret == Success {
      var ok := t.Send(scratch[half..half + encLen]);
      if !ok {
        ret := CryptoErr;
      }
    }
  }

  lemma MacSize(c: Suite, secret: bytes, th: bytes)
    requires c.Laws()
    ensures |FinishedMac(c, secret, th)| == 32
  {}

  method FinishFlight(c: Suite, t: Pipe, scratch: array<byte>, k: Server, keys: HsKeys, tc: bytes)
    returns (ret: Status, tc': bytes)
    requires c.Laws() && k.Sized() && k.ArgsOk() && k.scratchLen <= scratch.Length <= MAX_BUFFER && keys.server.Sized()
    modifies t`out, t`sends, scratch
    ensures var p := FlightPrefix(c, k, tc);
      if p.status != Success then ret == p.status && t.State() == old(t.State())
      else
        var flight := WholeFlight(c, keys.server.secret, tc, p.msgs);
        if |flight| > MAX_PLAINTEXT then ret == InvalidArg && t.State() == old(t.State())
        else
          && ret == (if old(t.State()).CanSend() then Success else CryptoErr)
          && t.State() == old(t.State()).Sent(FlightOut(c, keys.server, flight)) && tc' == tc + flight
  {
    hide FlightPrefix, WholeFlight, FlightOut;
    var len;
    ret, len, tc' := BuildPrefix(c, scratch, k, tc);
    if ret == Success {
      ret, tc' := SendFlight(c, t, scratch, k, keys, len, tc', tc);
    }
  }

  /** The certificate server; on any failure no half-open session is left. */
  method AcceptCert(c: Suite, sess: Session, k: Server) returns (ret: Status)
    requires sess.Valid() && sess.suite == c && k.Sized() && k.scratchLen <= sess.scratch.Length
    modifies sess, sess.pipe, sess.scratch, sess.cAppSecret, sess.cKey, sess.cIv, sess.sAppSecret, sess.sKey, sess.sIv
    ensures sess.Valid()
    ensures ClientStart.ResultOf(ret, sess) == ServerRun(c, k, old(sess.pipe.State()))
    ensures ret == Success ==> ClientStart.Ready(sess, k.scratchLen)
    ensures ret != Success && k.ArgsOk() ==> sess.State() == old(sess.State()).Wiped().(gen := sess.gen, log := sess.log)
  {
    hide ToKeys, AwaitFinished, AppEnds, FlightOut, FlightPrefix, WholeFlight;
    if k.scratchLen < SCRATCH_MIN {
      return InvalidArg;
    }
    var keys, tc;
    ret, keys, tc := Greeted(c, sess.pipe, sess.scratch, k);
    if ret == Success {
      ret, tc := FinishFlight(c, sess.pipe, sess.scratch, k, keys, tc);
    }
    if ret == Success {
      SessionEstablish(c, Role.Server, sess, keys.hs, c.hash(tc), k.scratchLen);
      ret := RecvFinished(c, sess.pipe, sess.scratch, k.scratchLen, sess.scratch, k.Half(), k.Half(), keys.client, tc);
    }
    if ret != Success {
      sess.Wipe();
    }
  }
}
