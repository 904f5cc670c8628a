/** `wn_Accept_Psk_ex`: the PSK server, as a function of its input stream and as code. */
module PskServer {
  import opened Bytes
  import opened Crypto
  import opened KeySchedule
  import opened Transport
  import opened Record
  import opened Handshake
  import opened HandshakeKeys
  import opened HelloRetry
  import opened ServerStart
  import opened ClientHelloSpec
  import opened Session
  import Build = ServerHelloBuild
  import ClientSpec = PskClientSpec
  import ClientStart

  const SCRATCH_MIN: nat := 2048
  const FLIGHT_CAP: nat := 128

  // ----- specification ---------------------------------------------------------------------

  /** The caller's arguments and the random values the server draws. */
  datatype Server = Server(drawn: Drawn, psk: bytes, identity: bytes, scratchLen: nat) {
    predicate Sized() { |drawn.random| == 32 }

    predicate ArgsOk() { psk != [] && scratchLen >= SCRATCH_MIN }
  }

  /** The first offered identity must be ours and its binder must cover the transcript up to the cut. */
  function OfferVerdict(c: Suite, k: Server, g: Greeting): Status
    requires g.Greeting? && g.Valid()
  {
    if g.hello.psk.None? then IllegalParam else
    OfferInside(g.msg, g.hello);
    var p := g.hello.psk.value;
    if p.identity.Of(g.msg) != k.identity then IllegalParam
    else if p.binder.Of(g.msg) != ClientSpec.Binder(c, k.psk, g.pre + g.msg[..p.truncLen]) then BadMac
    else Success
  }

  function ServerRun(c: Suite, k: Server, n: Net): HsResult {
    if !k.ArgsOk() then Failed(InvalidArg, n) else
    var g := Greet(c, n, k.scratchLen);
    if g.Refusal? then Failed(g.status, g.n) else
    var v := OfferVerdict(c, k, g);
    if v != Success then Failed(v, g.n) else
    match Answer(c, k.drawn, g, Some(0), Early(c, k.psk))
    case Broken(status, n1) => Failed(status, n1)
    case Keyed(keys, tr, n1) => ServerFlight(c, keys, k.scratchLen, tr, n1)
  }

  /** EncryptedExtensions and Finished go out in one record, the first under the handshake key. */
  function FlightOut(c: Suite, d: Dir, tr: bytes): bytes {
    Sealed(c, d.key, d.iv, 0, REC_HANDSHAKE, Build.EE_BYTES + FinishedMsg(c, d.secret, tr + Build.EE_BYTES), 0)
  }

  function AfterFlight(c: Suite, keys: HsKeys, tr: bytes): bytes {
    tr + Build.EE_BYTES + FinishedMsg(c, keys.server.secret, tr + Build.EE_BYTES)
  }

  function ServerFlight(c: Suite, keys: HsKeys, cap: nat, tr: bytes, n: Net): HsResult {
    var n1 := n.Sent(FlightOut(c, keys.server, tr));
    if !n.CanSend() then Failed(CryptoErr, n1) else
    var tr1 := AfterFlight(c, keys, tr);
    var s := AwaitFinished(c, keys.client, cap, FLIGHT_CAP, tr1, n1);
    if s.ret != Success then Failed(s.ret, s.n)
    else HsResult(Success, s.n, Some(AppEnds(c, Role.Server, keys.hs, c.hash(tr1))))
  }

  // ----- the code --------------------------------------------------------------------------

  /** Identity and binder; the transcript takes the ClientHello in two parts, around the cut. */
  method CheckOffer(c: Suite, scratch: array<byte>, chLen: nat, ch: Parsed, tc: bytes, psk: bytes, identity: bytes,
                    ghost k: Server, ghost g: Greeting)
    returns (ret: Status, tc': bytes)
    requires chLen <= scratch.Length && k.psk == psk && k.identity == identity
    requires g.Greeting? && g.Valid() && g.msg == scratch[..chLen] && g.hello == ch && g.pre == tc
    ensures ret == OfferVerdict(c, k, g)
    ensures ret == Success ==> tc' == tc + scratch[..chLen]
  {
    hide ParseHello, ClientSpec.Binder;
    ret, tc' := Success, tc;
    if ch.psk.None? {
      return IllegalParam, tc;
    }
    OfferInside(g.msg, ch);
    var p := ch.psk.value;
    assert g.msg[p.identity.off..p.identity.off + p.identity.len]
        == scratch[p.identity.off..p.identity.off + p.identity.len];
    if p.identity.len != |identity| || scratch[p.identity.off..p.identity.off + p.identity.len] != identity {
      ret := IllegalParam;
    }
    if ret == Success {
      ret, tc' := CheckBinder(c, scratch[..chLen], p, tc, psk);
    }
  }

  method CheckBinder(c: Suite, msg: bytes, p: Psk, tc: bytes, psk: bytes) returns (ret: Status, tc': bytes)
    requires p.binder.In(msg) && p.binder.len == 32 && p.truncLen <= |msg|
    ensures ret == if p.binder.Of(msg) == ClientSpec.Binder(c, psk, tc + msg[..p.truncLen]) then Success else BadMac
    ensures ret == Success ==> tc' == tc + msg
  {
    ret := Success;
    var binderKey := DeriveSecret(c, Early(c, psk), "ext binder", c.hash([]));
    tc' := tc + msg[..p.truncLen];
    var mac := FinishedMac(c, binderKey, c.hash(tc'));
    if mac != msg[p.binder.off..p.binder.off + 32] {
      ret := BadMac;
    }
    if ret == Success {
      tc' := tc' + msg[p.truncLen..];
      assert msg == msg[..p.truncLen] + msg[p.truncLen..];
    }
  }

  /** `wn_Accept_Psk_ex` up to the handshake keys. */
  method Greeted(c: Suite, t: Pipe, scratch: array<byte>, k: Server)
    returns (ret: Status, keys: HsKeys, tc: bytes)
    requires c.Laws() && k.Sized() && k.ArgsOk() && k.scratchLen <= scratch.Length <= MAX_BUFFER
    modifies t, scratch
    ensures ToKeys(c, k, old(t.State())) == if ret == Success then Keyed(keys, tc, t.State()) else Broken(ret, t.State())
    ensures ret == Success ==> keys.client.Sized() && keys.server.Sized()
  {
    hide ParseHello, OfferVerdict, Answer, RecvHello, MaybeRetry, AppEnds;
    keys, tc := HsKeys([], Dir([], [], [], 0), Dir([], [], [], 0)), [];
    var chLen, ch;
    ret, chLen, ch := RecvClientHello(t, scratch, k.scratchLen, [], false);
    var retried := false;
    if ret == Success {
      retried := ch.keyShare.None?;
      ret, chLen, ch, tc := AcceptMaybeHrr(c, t, scratch, k.scratchLen, chLen, ch, tc);
    }
    ghost var g := Greet(c, old(t.State()), k.scratchLen);
    if ret == Success {
      ret, tc := CheckOffer(c, scratch, chLen, ch, tc, k.psk, k.identity, k, g);
    }
    if ret == Success {
      ret, keys, tc := AnswerHello(c, t, scratch, k.scratchLen, k.drawn, ch, chLen, retried, tc,
                                   Some(0), Early(c, k.psk), g);
    }
  }

  ghost function ToKeys(c: Suite, k: Server, n: Net): Exchange {
    var g := Greet(c, n, k.scratchLen);
    if g.Refusal? then Broken(g.status, g.n) else
    var v := OfferVerdict(c, k, g);
    if v != Success then Broken(v, g.n) else Answer(c, k.drawn, g, Some(0), Early(c, k.psk))
  }

  method SendFlight(c: Suite, t: Pipe, scratch: array<byte>, keys: HsKeys, tc: bytes) returns (ret: Status, tc': bytes)
    requires c.Laws() && scratch.Length >= SCRATCH_MIN && keys.server.Sized()
    modifies t`out, t`sends, scratch
    ensures ret == if old(t.State()).CanSend() then Success else CryptoErr
    ensures t.State() == old(t.State()).Sent(FlightOut(c, keys.server, tc))
    ensures tc' == AfterFlight(c, keys, tc)
  {
    hide Sealed;
    var flight := new byte[128];
    var eeLen;
    ret, eeLen := Build.BuildEncExt(flight, 0, 128);
    assert flight[..6] == flight[0..6];
    tc' := tc + flight[..eeLen];
    var fin := [HS_FINISHED, 0, 0, 32] + FinishedMac(c, keys.server.secret, c.hash(tc'));
    Overwrite(flight, eeLen, fin);
    tc' := tc' + fin;
    assert flight[..42] == Build.EE_BYTES + fin;
    var recLen;
    ret, recLen := Protect(c, scratch, 0, keys.server.key, keys.server.iv, 0, REC_HANDSHAKE, flight[..42]);
    assert scratch[0..recLen] == scratch[..recLen];
    var ok := t.Send(scratch[..recLen]);
    if !ok {
      ret := CryptoErr;
    }
  }

  /** The PSK server; on any failure no half-open session is left. */
  method AcceptPsk(c: Suite, sess: Session, k: Server) returns (ret: Status)
    requires sess.Valid() && sess.suite == c && k.Sized() && k.scratchLen <= sess.scratch.Length
    modifies sess, sess.pipe, sess.scratch, sess.cAppSecret, sess.cKey, sess.cIv, sess.sAppSecret, sess.sKey, sess.sIv
    ensures sess.Valid()
    ensures ClientStart.ResultOf(ret, sess) == ServerRun(c, k, old(sess.pipe.State()))
    ensures ret == Success ==> ClientStart.Ready(sess, k.scratchLen)
    ensures ret != Success && k.ArgsOk() ==> sess.State() == old(sess.State()).Wiped().(gen := sess.gen, log := sess.log)
  {
    hide Greet, OfferVerdict, Answer, AwaitFinished, AppEnds, FlightOut, AfterFlight;
    if k.psk == [] || k.scratchLen < SCRATCH_MIN {
      return InvalidArg;
    }
    var keys, tc;
    ret, keys, tc := Greeted(c, sess.pipe, sess.scratch, k);
    if ret == Success {
      ret, tc := SendFlight(c, sess.pipe, sess.scratch, keys, tc);
    }
    if ret == Success {
      SessionEstablish(c, Role.Server, sess, keys.hs, c.hash(tc), k.scratchLen);
      var flight := new byte[128];
      ret := RecvFinished(c, sess.pipe, sess.scratch, k.scratchLen, flight, 0, 128, keys.client, tc);
    }
    if ret != Success {
      sess.Wipe();
    }
  }
}
