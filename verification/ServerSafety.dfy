/**
 * What every successful run of a server has verified and what it ends with: the client's binder and
 * Finished, the choice it has sent, and the keys, each written out as RFC 8446 has it.
 */
module ServerSafety {
  import opened Bytes
  import opened Crypto
  import opened KeySchedule
  import opened Transport
  import opened Record
  import opened Handshake
  import opened HandshakeKeys
  import opened HelloRetry
  import opened ServerStart
  import opened ClientHelloSpec
  import opened CertHello
  import opened CertMessages
  import opened HrrTranscript
  import opened RfcSchedule
  import opened WireFormat
  import opened HelloGrammar
  import SH = ServerHello
  import SB = ServerHelloBuild
  import Psk = PskServer
  import Cert = CertServer
  import ClientSpec = PskClientSpec

  // ----- the client's Finished -------------------------------------------------------------

  /** A Finished with the right MAC; the three octets of its length are not looked at. */
  predicate FinishedButLength(c: Suite, secret: bytes, transcript: bytes, content: bytes) {
    |content| == 36 && content[0] == 20 && content[4..] == Mac(c, secret, transcript)
  }

  lemma FinishedUpToLength(c: Suite, secret: bytes, transcript: bytes, content: bytes)
    requires c.Laws()
    ensures content == Finished(c, secret, transcript)
      <==> FinishedButLength(c, secret, transcript, content) && content[1..4] == [0, 0, 32]
  {
    var f := Finished(c, secret, transcript);
    assert |f| == 36 && f[1..4] == [0, 0, 32] && f[4..] == Mac(c, secret, transcript);
    if FinishedButLength(c, secret, transcript, content) && content[1..4] == [0, 0, 32] {
      assert content == [content[0]] + content[1..4] + content[4..];
    }
  }

  /** The next record, past any ChangeCipherSpecs, opens under `d` to a Finished over `transcript`. */
  ghost predicate BringsFinished(c: Suite, d: Dir, cap: nat, limit: nat, transcript: bytes, inp: bytes, rest: bytes) {
    exists rec: bytes, content: bytes ::
      && NextRecord(inp, cap) == Received(Success, 23, rec, rest) && |rec| <= limit + 21
      && Unsealed(c, d.key, d.iv, 0, rec) == Opened(Success, content, 22)
      && FinishedButLength(c, d.secret, transcript, content)
  }

  /** A server is content with the client exactly if that record is there. */
  lemma AwaitExactly(c: Suite, d: Dir, cap: nat, limit: nat, tr: bytes, n: Net, rest: bytes)
    ensures AwaitFinished(c, d, cap, limit, tr, n) == Sending(Success, n.(inp := rest))
      <==> BringsFinished(c, d, cap, limit, tr, n.inp, rest)
  {
    hide NextRecord, Unsealed, FinishedMac, Mac;
    FinishedIs(c, d.secret, tr);
    var got := NextRecord(n.inp, cap);
    var o := Unsealed(c, d.key, d.iv, 0, got.rec);
    if AwaitFinished(c, d, cap, limit, tr, n) == Sending(Success, n.(inp := rest)) {
      assert got == Received(Success, 23, got.rec, rest) && o == Opened(Success, o.content, 22);
    }
  }

  /** A Finished with another MAC is answered with BAD_MAC. */
  lemma WrongMacRefused(c: Suite, d: Dir, cap: nat, limit: nat, tr: bytes, n: Net, rec: bytes, rest: bytes,
      content: bytes)
    requires NextRecord(n.inp, cap) == Received(Success, 23, rec, rest) && |rec| <= limit + 21
    requires Unsealed(c, d.key, d.iv, 0, rec) == Opened(Success, content, 22)
    requires |content| == 36 && content[0] == 20 && content[4..] != Mac(c, d.secret, tr)
    ensures AwaitFinished(c, d, cap, limit, tr, n) == Sending(BadMac, n.(inp := rest))
  {
    hide NextRecord, Unsealed, FinishedMac, Mac;
    FinishedIs(c, d.secret, tr);
  }

  /** The length field of a client's Finished may say anything. */
  lemma LengthIgnored(c: Suite, d: Dir, tr: bytes, length: bytes, n: Net, rest: bytes)
    requires c.Laws() && |length| == 3
    requires n.inp == Sealed(c, d.key, d.iv, 0, 22, [20] + length + Mac(c, d.secret, tr), 0) + rest
    ensures AwaitFinished(c, d, 2048, 128, tr, n) == Sending(Success, n.(inp := rest))
  {
    hide Sealed, Unsealed, RecordIn, Mac, FinishedMac;
    var content := [20] + length + Mac(c, d.secret, tr);
    MacSize(c, d.secret, tr);
    FinishedIs(c, d.secret, tr);
    SealedIn(c, d.key, d.iv, 0, 22, content, 0, rest, 2048);
    UnsealSealed(c, d.key, d.iv, 0, 22, content, 0);
    assert content[4..] == Mac(c, d.secret, tr);
  }

  lemma MacSize(c: Suite, base: bytes, tr: bytes)
    requires c.Laws()
    ensures |Mac(c, base, tr)| == 32
  {}

  // ----- the server's choice ---------------------------------------------------------------

  /** The ServerHello echoes the session id and selects the suite, the version, the group and the PSK. */
  lemma AnswerSelects(c: Suite, d: Drawn, g: Greeting, psk: Option<nat>)
    requires c.Laws() && |d.random| == 32 && g.Greeting? && g.Valid()
    ensures ReadServer(ServerHelloFor(c, d, g, psk)) == Some(ServerMsg(0x0303, d.random, g.hello.sid.Of(g.msg), 0x1301, 0,
      HelloList(0x001d, c.share(d.priv), psk)))
  {
    hide SB.ShBytes, ReadServer, ParseHello, HelloList, SB.ShExts;
    SidInside(g.msg, g.hello);
    ExtsSize(c.share(d.priv), psk);
    ServerHelloReads(d.random, SidOf(g.msg, g.hello), 0x1301, 0x001d, c.share(d.priv), psk);
  }

  lemma ExtsSize(pub: bytes, psk: Option<nat>)
    requires |pub| == 32
    ensures |SB.ShExts(0x001d, pub, psk)| <= 52
  {}

  /** The retry, which goes out first if the ClientHello has no share, echoes its session id and selects x25519. */
  lemma RetrySelects(c: Suite, n: Net, scratchLen: nat)
    requires Greet(c, n, scratchLen).Greeting? && Greet(c, n, scratchLen).retried
    ensures var g, ch1 := Greet(c, n, scratchLen), FirstHello(n, scratchLen);
      && ParseHello(ch1).Accept? && ParseHello(ch1).hello.keyShare.None?
      && exists retry: bytes ::
           && ReadServer(retry) == Some(ServerMsg(0x0303, SH.HRR_RANDOM, ParseHello(ch1).hello.sid.Of(ch1), 0x1301, 0,
                [Ext(43, [3, 4]), Ext(51, [0, 29])]))
           && g.n.out == n.out + PlainRecord(REC_HANDSHAKE, retry) + CCS_RECORD
           && g.pre == [0xFE, 0, 0, 32] + c.hash(ch1) + retry
  {
    hide ParseHello, Greet, Gather, SB.ShMessage, ReadServer, PlainRecord, SH.HRR_RANDOM;
    GreetPrologue(c, n, scratchLen);
    var ch1 := FirstHello(n, scratchLen);
    SidInside(ch1, ParseHello(ch1).hello);
    RetryReads(SidOf(ch1, ParseHello(ch1).hello), 0x1301, 0x001d);
  }

  // ----- the PSK server --------------------------------------------------------------------

  /** What stands behind a successful run, given the shared secret `z` of the key exchange. */
  ghost predicate PskVerified(c: Suite, k: Psk.Server, n: Net, z: bytes) {
    var g, r := Greet(c, n, k.scratchLen), Psk.ServerRun(c, k, n);
    && g.Greeting? && g.Valid() && g.hello.keyShare.Some? && g.hello.psk.Some?
    && g.hello.keyShare.value.In(g.msg) && c.agree(k.drawn.priv, g.hello.keyShare.value.Of(g.msg)) == Some(z)
    && var p := g.hello.psk.value;
    && p.identity.In(g.msg) && p.binder.In(g.msg) && p.truncLen <= |g.msg|
    && p.identity.Of(g.msg) == k.identity
    && p.binder.Of(g.msg) == BinderMac(c, k.psk, g.pre + g.msg[..p.truncLen])
    && var tr := g.pre + g.msg + ServerHelloFor(c, k.drawn, g, Some(0));
    && var server := Traffic(c, [k.psk, z], "s hs traffic", tr);
    && var client := Traffic(c, [k.psk, z], "c hs traffic", tr);
    && var flight := [8, 0, 0, 2, 0, 0] + Finished(c, server.secret, tr + [8, 0, 0, 2, 0, 0]);
    && var inputs := [k.psk, z, Zeros(32)];
    && Prologue(c, n, k.scratchLen, g)
    && r.n.out == n.out + Opening(c, n, k.scratchLen, g, ServerHelloFor(c, k.drawn, g, Some(0)))
         + Sealed(c, server.key, server.iv, 0, 22, flight, 0)
    && BringsFinished(c, client, k.scratchLen, 128, tr + flight, g.n.inp, r.n.inp)
    && r.ends == Some(Ends(Traffic(c, inputs, "s ap traffic", tr + flight),
         Traffic(c, inputs, "c ap traffic", tr + flight)))
  }

  /**
   * Every successful run of the PSK server: the identity is its own, the binder is the MAC of the PSK
   * over the ClientHello up to the cut, the client has proved with a Finished over the whole transcript
   * that it holds the handshake keys, and the session's keys are those of the key schedule over the same
   * transcript.
   */
  lemma PskServerSafety(c: Suite, k: Psk.Server, n: Net) returns (z: bytes)
    requires c.Laws() && Psk.ServerRun(c, k, n).ret == Success
    ensures PskVerified(c, k, n, z)
  {
    hide ParseHello, Greet, Answer, Opening, AwaitFinished, Sealed, RetryFor, Gather, ServerHelloFor, AppEnds, Prologue,
        ClientSpec.Binder, BinderMac, Traffic, Finished, FinishedMsg, BringsFinished;
    var g := Greet(c, n, k.scratchLen);
    OfferInside(g.msg, g.hello);
    AnswerOpening(c, k.drawn, n, k.scratchLen, Some(0), Early(c, k.psk));
    var e := Answer(c, k.drawn, g, Some(0), Early(c, k.psk));
    z := AnswerKeys(c, k.drawn, g, Some(0), k.psk);
    BinderIs(c, k.psk, g.pre + g.msg[..g.hello.psk.value.truncLen]);
    var tr := e.tr;
    var tr1 := Psk.AfterFlight(c, e.keys, tr);
    var n1 := e.n.Sent(Psk.FlightOut(c, e.keys.server, tr));
    FinishedIs(c, e.keys.server.secret, tr + [8, 0, 0, 2, 0, 0]);
    Join(tr, [8, 0, 0, 2, 0, 0], Finished(c, e.keys.server.secret, tr + [8, 0, 0, 2, 0, 0]));
    AwaitKeepsRest(c, e.keys.client, k.scratchLen, Psk.FLIGHT_CAP, tr1, n1);
    AwaitExactly(c, e.keys.client, k.scratchLen, Psk.FLIGHT_CAP, tr1, n1, Psk.ServerRun(c, k, n).n.inp);
    ApplicationStage(c, k.psk, z, Role.Server, tr1);
  }

  lemma AwaitKeepsRest(c: Suite, d: Dir, cap: nat, limit: nat, tr: bytes, n: Net)
    ensures var s := AwaitFinished(c, d, cap, limit, tr, n); s.n == n.(inp := s.n.inp)
  {}

  /** The keys of an answer are those of the key schedule over the transcript through ServerHello. */
  lemma AnswerKeys(c: Suite, d: Drawn, g: Greeting, psk: Option<nat>, secret: bytes) returns (z: bytes)
    requires g.Greeting? && g.Valid() && g.hello.keyShare.Some? && Answer(c, d, g, psk, Early(c, secret)).Keyed?
    ensures g.hello.keyShare.value.In(g.msg) && c.agree(d.priv, g.hello.keyShare.value.Of(g.msg)) == Some(z)
    ensures var e := Answer(c, d, g, psk, Early(c, secret));
      && e.tr == g.pre + g.msg + ServerHelloFor(c, d, g, psk) && e.n.inp == g.n.inp
      && e.keys.hs == SecretAfter(c, [secret, z])
      && e.keys.client == Traffic(c, [secret, z], "c hs traffic", e.tr)
      && e.keys.server == Traffic(c, [secret, z], "s hs traffic", e.tr)
  {
    hide ParseHello, DeriveHsKeys, Traffic, SecretAfter, ServerHelloFor, SendWithCcs, SendPlain;
    OfferInside(g.msg, g.hello);
    z := c.agree(d.priv, ShareOf(g.msg, g.hello)).value;
    var sh := ServerHelloFor(c, d, g, psk);
    InputKept(g.n, sh);
    HandshakeStage(c, secret, z, g.pre + g.msg + sh);
  }

  lemma InputKept(n: Net, m: bytes)
    ensures SendWithCcs(n, m).n.inp == n.inp && SendPlain(n, REC_HANDSHAKE, m).n.inp == n.inp
  {}

  lemma BinderIs(c: Suite, psk: bytes, tr: bytes)
    ensures ClientSpec.Binder(c, psk, tr) == BinderMac(c, psk, tr)
  {
    SecretAfterOne(c, psk);
  }

  // ----- the certificate server ------------------------------------------------------------

  /** Likewise for the certificate server, given also its signature. */
  ghost predicate CertVerified(c: Suite, k: Cert.Server, n: Net, z: bytes, sig: bytes) {
    var g, r := Greet(c, n, k.scratchLen), Cert.ServerRun(c, k, n);
    && g.Greeting? && g.Valid() && g.hello.keyShare.Some? && Offers(g.msg, g.hello, k.scheme)
    && g.hello.keyShare.value.In(g.msg) && c.agree(k.drawn.priv, g.hello.keyShare.value.Of(g.msg)) == Some(z)
    && var tr := g.pre + g.msg + ServerHelloFor(c, k.drawn, g, None);
    && var server := Traffic(c, [Zeros(32), z], "s hs traffic", tr);
    && var client := Traffic(c, [Zeros(32), z], "c hs traffic", tr);
    && var cert := [8, 0, 0, 2, 0, 0] + CertMsg(k.cert);
    && c.sign(k.key, k.scheme, CvContent(c.hash(tr + cert))) == Some(sig)
    && var signed := cert + CvMsg(k.scheme, sig);
    && var flight := signed + Finished(c, server.secret, tr + signed);
    && var inputs := [Zeros(32), z, Zeros(32)];
    && Prologue(c, n, k.scratchLen, g)
    && r.n.out == n.out + Opening(c, n, k.scratchLen, g, ServerHelloFor(c, k.drawn, g, None))
         + Sealed(c, server.key, server.iv, 0, 22, flight, 0)
    && BringsFinished(c, client, k.scratchLen, k.scratchLen / 2, tr + flight, g.n.inp, r.n.inp)
    && r.ends == Some(Ends(Traffic(c, inputs, "s ap traffic", tr + flight),
         Traffic(c, inputs, "c ap traffic", tr + flight)))
  }

  /**
   * Every successful run of the certificate server: its scheme was offered, CertificateVerify signs the
   * transcript through Certificate, and again the client has proved itself with a Finished over the whole
   * transcript, and the session's keys are those of the key schedule.
   */
  lemma CertServerSafety(c: Suite, k: Cert.Server, n: Net) returns (z: bytes, sig: bytes)
    requires c.Laws() && Cert.ServerRun(c, k, n).ret == Success
    ensures CertVerified(c, k, n, z, sig)
  {
    hide ParseHello, Greet, Answer, Opening, AwaitFinished, Sealed, RetryFor, Gather, ServerHelloFor, AppEnds, Prologue,
        Offers, CertMsg, CvMsg, CvContent, Traffic, Finished, FinishedMsg, BringsFinished;
    var g := Greet(c, n, k.scratchLen);
    AnswerOpening(c, k.drawn, n, k.scratchLen, None, Cert.NoPsk(c));
    var e := Answer(c, k.drawn, g, None, Cert.NoPsk(c));
    z := AnswerKeys(c, k.drawn, g, None, Zeros(32));
    var tr := e.tr;
    Join(tr, [8, 0, 0, 2, 0, 0], CertMsg(k.cert));
    sig := c.sign(k.key, k.scheme, CvContent(c.hash(tr + [8, 0, 0, 2, 0, 0] + CertMsg(k.cert)))).value;
    var signed := Cert.FlightPrefix(c, k, tr).msgs;
    FinishedIs(c, e.keys.server.secret, tr + signed);
    var flight := Cert.WholeFlight(c, e.keys.server.secret, tr, signed);
    var n1 := e.n.Sent(Cert.FlightOut(c, e.keys.server, flight));
    AwaitKeepsRest(c, e.keys.client, k.scratchLen, k.Half(), tr + flight, n1);
    AwaitExactly(c, e.keys.client, k.scratchLen, k.Half(), tr + flight, n1, Cert.ServerRun(c, k, n).n.inp);
    ApplicationStage(c, Zeros(32), z, Role.Server, tr + flight);
  }

  // ----- refusals --------------------------------------------------------------------------

  /** An offer without a PSK or with another identity is illegal; a wrong binder is a bad MAC; no session is left. */
  lemma OfferRefused(c: Suite, k: Psk.Server, n: Net)
    requires k.ArgsOk() && Greet(c, n, k.scratchLen).Greeting?
    ensures var g, r := Greet(c, n, k.scratchLen), Psk.ServerRun(c, k, n);
      && (g.hello.psk.None? ==> r == Failed(IllegalParam, g.n))
      && (g.hello.psk.Some? ==>
            var p := g.hello.psk.value;
            && p.identity.In(g.msg) && p.binder.In(g.msg) && p.truncLen <= |g.msg|
            && (p.identity.Of(g.msg) != k.identity ==> r == Failed(IllegalParam, g.n))
            && (p.identity.Of(g.msg) == k.identity ==>
                  p.binder.Of(g.msg) != BinderMac(c, k.psk, g.pre + g.msg[..p.truncLen]) ==> r == Failed(BadMac, g.n)))
  {
    hide ParseHello, Greet, Answer, ClientSpec.Binder, BinderMac;
    var g := Greet(c, n, k.scratchLen);
    OfferInside(g.msg, g.hello);
    if g.hello.psk.Some? {
      BinderIs(c, k.psk, g.pre + g.msg[..g.hello.psk.value.truncLen]);
    }
  }

  /** Nor is there one for a scheme that was not offered. */
  lemma SchemeRefused(c: Suite, k: Cert.Server, n: Net)
    requires k.ArgsOk() && Greet(c, n, k.scratchLen).Greeting?
    ensures var g := Greet(c, n, k.scratchLen);
      !Offers(g.msg, g.hello, k.scheme) ==> Cert.ServerRun(c, k, n) == Failed(IllegalParam, g.n)
  {
    hide ParseHello, Greet, Answer, Offers;
  }
}
